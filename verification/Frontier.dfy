/** `incrementalmerkletree/src/frontier.rs`: the rightmost leaf of a tree together with the hashes
    of the complete subtrees to its left. */
module Frontiers {

  import opened Basics
  import opened Merkle

  datatype NonEmptyFrontier<H> = NonEmptyFrontier(position: nat, leaf: H, ommers: seq<H>)
  {
    /** What `from_parts` checks: one ommer for each set bit of the position. */
    predicate WellFormed() { |ommers| == PastOmmerCount(position) }
  }

  // ---------- Specification ----------

  /** Roots of the complete left siblings met on the way up from (level, index). */
  ghost function OmmersAbove<H>(hs: Hashable<H>, leaves: seq<H>, level: nat, index: nat): seq<H>
    decreases index
  {
    if index == 0 then []
    else if index % 2 == 1 then [Root(hs, leaves, level, index - 1)] + OmmersAbove(hs, leaves, level + 1, index / 2)
    else OmmersAbove(hs, leaves, level + 1, index / 2)
  }

  /** The frontier that a nonempty leaf sequence must have. */
  ghost function FrontierOf<H>(hs: Hashable<H>, leaves: seq<H>): NonEmptyFrontier<H>
    requires |leaves| > 0
  {
    NonEmptyFrontier(|leaves| - 1, leaves[|leaves| - 1], OmmersAbove(hs, leaves, 0, |leaves| - 1))
  }

  /** Propagates a completed subtree root upwards: combined with ommers as long as the path turns
      right, then stored at the first free slot. */
  function Carry<H>(hs: Hashable<H>, level: nat, index: nat, ommers: seq<H>, carry: H): (r: seq<H>)
    requires |ommers| == PastOmmerCount(index)
    ensures |r| == PastOmmerCount(index + 1)
    decreases index
  {
    assert (index + 1) / 2 == if index % 2 == 1 then index / 2 + 1 else index / 2;
    if index % 2 == 1 then Carry(hs, level + 1, index / 2, ommers[1..], hs.combine(level, ommers[0], carry))
    else [carry] + ommers
  }

  /** The frontier after appending one leaf, for any well-formed frontier. */
  function Pushed<H>(hs: Hashable<H>, f: NonEmptyFrontier<H>, leaf: H): (r: NonEmptyFrontier<H>)
    requires f.WellFormed()
    ensures r.WellFormed()
  {
    NonEmptyFrontier(f.position + 1, leaf, Carry(hs, 0, f.position, f.ommers, f.leaf))
  }

  lemma {:induction false} OmmerCount<H>(hs: Hashable<H>, leaves: seq<H>, level: nat, index: nat)
    ensures |OmmersAbove(hs, leaves, level, index)| == PastOmmerCount(index)
    decreases index
  {
    if index > 0 { OmmerCount(hs, leaves, level + 1, index / 2); }
  }

  /** Ommers only depend on leaves before the node whose path they accompany. */
  lemma {:induction false} OmmersAgree<H>(hs: Hashable<H>, a: seq<H>, b: seq<H>, level: nat, index: nat)
    requires forall p | 0 <= p < Start(level, index) :: LeafAt(hs, a, p) == LeafAt(hs, b, p)
    ensures OmmersAbove(hs, a, level, index) == OmmersAbove(hs, b, level, index)
    decreases index
  {
    if index > 0 {
      var parent := index / 2;
      assert Start(level + 1, parent) == Start(level, 2 * parent);
      StartMono(level, 2 * parent, index);
      OmmersAgree(hs, a, b, level + 1, parent);
      if index % 2 == 1 { RootAgree(hs, a, b, level, index - 1); }
    }
  }

  /** The carry keeps the ommers equal to the roots of the complete left siblings. */
  lemma {:induction false} CarryCorrect<H>(hs: Hashable<H>, leaves: seq<H>, level: nat, index: nat)
    ensures |OmmersAbove(hs, leaves, level, index)| == PastOmmerCount(index)
    ensures Carry(hs, level, index, OmmersAbove(hs, leaves, level, index), Root(hs, leaves, level, index))
         == OmmersAbove(hs, leaves, level, index + 1)
    decreases index
  {
    OmmerCount(hs, leaves, level, index);
    var parent := index / 2;
    if index % 2 == 1 {
      RootFromChild(hs, leaves, level, index);
      CarryCorrect(hs, leaves, level + 1, parent);
      assert (index + 1) / 2 == parent + 1;
      assert OmmersAbove(hs, leaves, level, index)[1..] == OmmersAbove(hs, leaves, level + 1, parent);
    } else {
      assert (index + 1) / 2 == parent;
      if index == 0 { assert OmmersAbove(hs, leaves, level + 1, 0) == []; }
    }
  }

  /** Appending to the frontier of a leaf sequence gives the frontier of the longer sequence. */
  lemma PushedCorrect<H>(hs: Hashable<H>, leaves: seq<H>, leaf: H)
    requires |leaves| > 0
    ensures FrontierOf(hs, leaves).WellFormed()
    ensures Pushed(hs, FrontierOf(hs, leaves), leaf) == FrontierOf(hs, leaves + [leaf])
  {
    var pos := |leaves| - 1;
    var longer := leaves + [leaf];
    OmmerCount(hs, leaves, 0, pos);
    CarryCorrect(hs, longer, 0, pos);
    OmmersAgree(hs, leaves, longer, 0, pos);
  }

  // ---------- Append ----------

  /** The bits of a position vanish at its root level. */
  lemma {:induction false} AboveRootLevel(pos: nat, top: nat)
    requires RootLevel(pos) <= top
    ensures Above(top, pos) == 0
  {
    AboveHalf(pos, top);
    if pos > 0 { AboveRootLevel(pos / 2, top - 1); }
  }

  lemma {:induction false} AboveHalf(pos: nat, level: nat)
    ensures level > 0 ==> Above(level, pos) == Above(level - 1, pos / 2)
    ensures pos == 0 ==> Above(level, pos) == 0
  {
    if level > 0 { AboveHalf(pos, level - 1); }
  }

  lemma {:induction false} RootLevelMono(p: nat)
    ensures RootLevel(p) <= RootLevel(p + 1)
  {
    if p > 0 {
      if p % 2 == 1 { assert (p + 1) / 2 == p / 2 + 1; RootLevelMono(p / 2); }
      else { assert (p + 1) / 2 == p / 2; }
    }
  }

  /** What is still to be carried at a level, beside the new ommers found so far and the old ones left. */
  ghost predicate Carrying<H>(hs: Hashable<H>, goal: seq<H>, carry: Option<(H, nat)>, done: seq<H>, level: nat,
                              index: nat, rest: seq<H>)
  {
    && |rest| == PastOmmerCount(index)
    && match carry
       case None => goal == done + rest
       case Some(c) =>
         && done == [] && c.1 <= level
         && goal == if c.1 == level then Carry(hs, level, index, rest, c.0) else [c.0] + rest
  }

  /** At an even index the carry comes to rest, at an odd one it is combined, or stored beside the next ommer. */
  lemma CarryOn<H>(hs: Hashable<H>, goal: seq<H>, carry: Option<(H, nat)>, done: seq<H>, level: nat, index: nat,
                   rest: seq<H>)
    requires Carrying(hs, goal, carry, done, level, index, rest)
    ensures index % 2 == 0 ==> Carrying(hs, goal, carry, done, level + 1, index / 2, rest)
    ensures index % 2 == 1 ==> |rest| > 0
    ensures index % 2 == 1 && carry.None? ==>
      Carrying(hs, goal, None, done + [rest[0]], level + 1, index / 2, rest[1..])
    ensures index % 2 == 1 && carry.Some? && carry.value.1 == level ==>
      Carrying(hs, goal, Some((hs.combine(level, rest[0], carry.value.0), level + 1)), done, level + 1, index / 2,
               rest[1..])
    ensures index % 2 == 1 && carry.Some? && carry.value.1 != level ==>
      Carrying(hs, goal, None, done + [carry.value.0] + [rest[0]], level + 1, index / 2, rest[1..])
  {
    if index % 2 == 1 {
      assert rest == [rest[0]] + rest[1..];
      assert (done + [rest[0]]) + rest[1..] == done + rest;
      if carry.Some? { assert ([carry.value.0] + [rest[0]]) + rest[1..] == [carry.value.0] + rest; }
    }
  }

  /** `NonEmptyFrontier::append`. The loop is the walk over `witness_addrs` of the prior position. */
  method AppendLeaf<H>(hs: Hashable<H>, f: NonEmptyFrontier<H>, leaf: H) returns (r: NonEmptyFrontier<H>)
    requires f.WellFormed()
    ensures r == Pushed(hs, f, leaf)
  {
    hide Carry, Carrying, Root, OmmersAbove, Start;
    CarryStarts(hs, f);
    var position := f.position + 1;
    if position % 2 == 1 {
      return NonEmptyFrontier(position, leaf, [f.leaf] + f.ommers);
    }
    var newRootLevel := RootLevel(position);
    var carry := Some((f.leaf, 0));
    var newOmmers: seq<H> := [];
    var level, index, used := 0, f.position, 0;
    ghost var goal := Carry(hs, 0, f.position, f.ommers, f.leaf);
    ghost var rest := f.ommers;
    while level < newRootLevel
      invariant level <= newRootLevel && index == Above(level, f.position)
      invariant used <= |f.ommers| && rest == f.ommers[used..]
      invariant Carrying(hs, goal, carry, newOmmers, level, index, rest)
    {
      CarryOn(hs, goal, carry, newOmmers, level, index, rest);
      if index % 2 == 1 {
        if carry.Some? {
          if carry.value.1 == level {
            carry := Some((hs.combine(level, f.ommers[used], carry.value.0), level + 1));
          } else {
            newOmmers := newOmmers + [carry.value.0];
            newOmmers := newOmmers + [f.ommers[used]];
            carry := None;
          }
        } else {
          newOmmers := newOmmers + [f.ommers[used]];
        }
        used, rest := used + 1, rest[1..];
      }
      level, index := level + 1, index / 2;
    }
    RootLevelMono(f.position);
    AboveRootLevel(f.position, level);
    CarryEnds(hs, goal, carry, newOmmers, level, rest);
    if carry.Some? {
      newOmmers := newOmmers + [carry.value.0];
    }
    r := NonEmptyFrontier(position, leaf, newOmmers);
  }

  lemma CarryStarts<H>(hs: Hashable<H>, f: NonEmptyFrontier<H>)
    requires f.WellFormed()
    ensures Carrying(hs, Carry(hs, 0, f.position, f.ommers, f.leaf), Some((f.leaf, 0)), [], 0, f.position, f.ommers)
    ensures f.position % 2 == 0 ==> Carry(hs, 0, f.position, f.ommers, f.leaf) == [f.leaf] + f.ommers
  {
  }

  /** Above all the bits of the position only the carry is left. */
  lemma CarryEnds<H>(hs: Hashable<H>, goal: seq<H>, carry: Option<(H, nat)>, done: seq<H>, level: nat, rest: seq<H>)
    requires Carrying(hs, goal, carry, done, level, 0, rest)
    ensures goal == if carry.Some? then done + [carry.value.0] else done
  {
  }

  // ---------- Root ----------

  /** `fold` over the levels between a complete digest and the next address, against empty roots. */
  function PadUp<H>(hs: Hashable<H>, digest: H, from: nat, to: nat): H
    decreases to - from
  {
    if from >= to then digest else PadUp(hs, hs.combine(from, digest, EmptyRoot(hs, from)), from + 1, to)
  }

  function RootFold<H>(hs: Hashable<H>, ommers: seq<H>, digest: H, completeLevel: nat, level: nat, index: nat,
                       top: nat): H
    requires |ommers| >= PastOmmerCount(index)
    decreases top - level
  {
    if level >= top then digest
    else
      var padded := PadUp(hs, digest, completeLevel, level);
      if index % 2 == 1 then
        RootFold(hs, ommers[1..], hs.combine(level, ommers[0], padded), level + 1, level + 1, index / 2, top)
      else
        RootFold(hs, ommers, hs.combine(level, padded, EmptyRoot(hs, level)), level + 1, level + 1, index / 2, top)
  }

  /** `NonEmptyFrontier::root` */
  function FrontierRoot<H>(hs: Hashable<H>, f: NonEmptyFrontier<H>, rootLevel: Option<nat>): H
    requires f.WellFormed()
  {
    RootFold(hs, f.ommers, f.leaf, 0, 0, f.position, if rootLevel.Some? then rootLevel.value else RootLevel(f.position))
  }

  lemma {:induction false} RootFoldCorrect<H>(hs: Hashable<H>, leaves: seq<H>, level: nat, index: nat, top: nat)
    requires level <= top
    requires Start(level, index) < |leaves| <= End(level, index)
    ensures |OmmersAbove(hs, leaves, level, index)| == PastOmmerCount(index)
    ensures RootFold(hs, OmmersAbove(hs, leaves, level, index), Root(hs, leaves, level, index), level, level,
                     index, top)
         == Root(hs, leaves, top, Climb(Address(level, index), top).index)
    decreases top - level
  {
    OmmerCount(hs, leaves, level, index);
    if level < top {
      var parent := index / 2;
      RootFromChild(hs, leaves, level, index);
      assert Start(level + 1, parent) == Start(level, 2 * parent);
      assert End(level + 1, parent) == Start(level, 2 * parent + 2);
      StartMono(level, 2 * parent, index);
      StartMono(level, index + 1, 2 * parent + 2);
      RootFoldCorrect(hs, leaves, level + 1, parent, top);
      if index % 2 == 1 {
        assert OmmersAbove(hs, leaves, level, index)[1..] == OmmersAbove(hs, leaves, level + 1, parent);
      } else {
        RootEmpty(hs, leaves, level, index + 1);
        if index == 0 { assert OmmersAbove(hs, leaves, level + 1, 0) == []; }
      }
    }
  }

  /** `root(Some(l))` is the hash of the level-`l` node above the tip, for every level, and `root(None)` that of the
      least tree that holds all the leaves. */
  lemma FrontierRootCorrect<H>(hs: Hashable<H>, leaves: seq<H>, level: nat)
    requires |leaves| > 0
    ensures FrontierOf(hs, leaves).WellFormed()
    ensures FrontierRoot(hs, FrontierOf(hs, leaves), Some(level)) == Root(hs, leaves, level, Above(level, |leaves| - 1))
    ensures var least := RootLevel(|leaves| - 1);
            && FrontierRoot(hs, FrontierOf(hs, leaves), None) == Root(hs, leaves, least, 0)
            && |leaves| <= End(least, 0) && (|leaves| <= End(level, 0) ==> least <= level)
  {
    var pos := |leaves| - 1;
    var least := RootLevel(pos);
    RootFoldCorrect(hs, leaves, 0, pos, level);
    ClimbAbove(pos, 0, level);
    RootFoldCorrect(hs, leaves, 0, pos, least);
    ClimbAbove(pos, 0, least);
    AboveRootLevel(pos, least);
    AboveRange(least, pos);
    StartZero(level);
    if |leaves| <= End(level, 0) {
      AboveUnique(level, pos, 0);
      RootLevelBound(level, pos);
    }
  }

  /** No tree below the root level holds a position. */
  lemma {:induction false} RootLevelBound(level: nat, pos: nat)
    requires Above(level, pos) == 0
    ensures RootLevel(pos) <= level
    decreases level
  {
    AboveHalf(pos, level);
    if level > 0 { RootLevelBound(level - 1, pos / 2); }
  }

  // ---------- Witness ----------

  function WitnessFrom<H>(ommers: seq<H>, level: nat, index: nat, depth: nat, complement: Address -> Option<H>)
      : (r: Result<seq<H>, Address>)
    requires |ommers| >= PastOmmerCount(index)
    decreases depth - level
  {
    if level >= depth then Ok([])
    else if index % 2 == 1 then
      var rest := WitnessFrom(ommers[1..], level + 1, index / 2, depth, complement);
      if rest.Ok? then Ok([ommers[0]] + rest.value) else rest
    else
      var addr := Address(level, SiblingIndex(index));
      match complement(addr)
      case None => Err(addr)
      case Some(value) =>
        var rest := WitnessFrom(ommers, level + 1, index / 2, depth, complement);
        if rest.Ok? then Ok([value] + rest.value) else rest
  }

  /** `NonEmptyFrontier::witness` */
  function FrontierWitness<H>(f: NonEmptyFrontier<H>, depth: nat, complement: Address -> Option<H>)
      : Result<seq<H>, Address>
    requires f.WellFormed()
  {
    WitnessFrom(f.ommers, 0, f.position, depth, complement)
  }

  /** Sibling hashes from `level` up to `depth`. */
  ghost function PathFrom<H>(hs: Hashable<H>, leaves: seq<H>, level: nat, index: nat, depth: nat): seq<H>
    decreases depth - level
  {
    if level >= depth then []
    else [Root(hs, leaves, level, SiblingIndex(index))] + PathFrom(hs, leaves, level + 1, index / 2, depth)
  }

  lemma {:induction false} PathFromIsRef<H>(hs: Hashable<H>, leaves: seq<H>, level: nat, pos: nat, depth: nat)
    requires level <= depth
    ensures RefPath(hs, leaves, pos, depth) ==
      RefPath(hs, leaves, pos, level) + PathFrom(hs, leaves, level, Above(level, pos), depth)
    decreases depth - level
  {
    if level < depth {
      assert Above(level + 1, pos) == Above(level, pos) / 2;
      PathFromIsRef(hs, leaves, level + 1, pos, depth);
    }
  }

  /** Whatever a complement function answers must be right. */
  ghost predicate Sound<H>(hs: Hashable<H>, leaves: seq<H>, pos: nat, depth: nat, complement: Address -> Option<H>)
  {
    forall k | 0 <= k < depth && Above(k, pos) % 2 == 0 ::
      var answer := complement(Address(k, Above(k, pos) + 1));
      answer.Some? ==> answer.value == Root(hs, leaves, k, Above(k, pos) + 1)
  }

  ghost predicate Answers<H>(pos: nat, depth: nat, complement: Address -> Option<H>)
  {
    forall k | 0 <= k < depth && Above(k, pos) % 2 == 0 :: complement(Address(k, Above(k, pos) + 1)).Some?
  }

  /** The complement node that a witness takes at a level, if it takes one there, is answered. */
  ghost predicate AnsweredAt<H>(pos: nat, k: nat, complement: Address -> Option<H>)
  {
    Above(k, pos) % 2 == 0 ==> complement(Address(k, Above(k, pos) + 1)).Some?
  }

  ghost predicate AnswersFrom<H>(pos: nat, level: nat, depth: nat, complement: Address -> Option<H>)
  {
    forall k | level <= k < depth :: AnsweredAt(pos, k, complement)
  }

  /** The lowest complement node that is not answered. */
  ghost predicate FirstUnanswered<H>(pos: nat, level: nat, depth: nat, complement: Address -> Option<H>, addr: Address)
  {
    && level <= addr.level < depth && Above(addr.level, pos) % 2 == 0
    && addr == Address(addr.level, Above(addr.level, pos) + 1) && complement(addr).None?
    && AnswersFrom(pos, level, addr.level, complement)
  }

  lemma AnswersOneMore<H>(pos: nat, level: nat, depth: nat, complement: Address -> Option<H>)
    requires level < depth
    ensures AnswersFrom(pos, level, depth, complement) <==>
      AnsweredAt(pos, level, complement) && AnswersFrom(pos, level + 1, depth, complement)
    ensures forall addr: Address | AnsweredAt(pos, level, complement) ::
      FirstUnanswered(pos, level + 1, depth, complement, addr) ==> FirstUnanswered(pos, level, depth, complement, addr)
  {
    hide AnsweredAt;
  }

  lemma AnswersAll<H>(pos: nat, depth: nat, complement: Address -> Option<H>)
    ensures AnswersFrom(pos, 0, depth, complement) <==> Answers(pos, depth, complement)
  {
    if AnswersFrom(pos, 0, depth, complement) {
      forall k | 0 <= k < depth && Above(k, pos) % 2 == 0 ensures complement(Address(k, Above(k, pos) + 1)).Some? {
        assert AnsweredAt(pos, k, complement);
      }
    }
    if Answers(pos, depth, complement) {
      forall k | 0 <= k < depth ensures AnsweredAt(pos, k, complement) { }
    }
  }

  lemma {:induction false} WitnessFromCorrect<H>(hs: Hashable<H>, leaves: seq<H>, pos: nat, level: nat, depth: nat,
                                                 complement: Address -> Option<H>)
    requires Sound(hs, leaves, pos, depth, complement)
    ensures |OmmersAbove(hs, leaves, level, Above(level, pos))| == PastOmmerCount(Above(level, pos))
    ensures var w := WitnessFrom(OmmersAbove(hs, leaves, level, Above(level, pos)), level, Above(level, pos), depth,
                                 complement);
            && (w.Ok? ==> w.value == PathFrom(hs, leaves, level, Above(level, pos), depth))
            && (w.Ok? <==> AnswersFrom(pos, level, depth, complement))
            && (w.Err? ==> FirstUnanswered(pos, level, depth, complement, w.error))
    decreases depth - level
  {
    var index := Above(level, pos);
    OmmerCount(hs, leaves, level, index);
    if level < depth {
      assert Above(level + 1, pos) == index / 2;
      AnswersOneMore(pos, level, depth, complement);
      WitnessFromCorrect(hs, leaves, pos, level + 1, depth, complement);
      if index % 2 == 1 {
        assert OmmersAbove(hs, leaves, level, index)[1..] == OmmersAbove(hs, leaves, level + 1, index / 2);
      } else {
        if index == 0 { assert OmmersAbove(hs, leaves, level + 1, 0) == []; }
        assert SiblingIndex(index) == index + 1;
      }
    }
  }

  /** With true complement nodes of a longer history, a frontier's witness is the list of sibling
      hashes in that longer history; it fails only if some complement node is missing. */
  lemma FrontierWitnessCorrect<H>(hs: Hashable<H>, leaves: seq<H>, later: seq<H>, depth: nat,
                                  complement: Address -> Option<H>)
    requires 0 < |leaves| && leaves <= later
    requires Sound(hs, later, |leaves| - 1, depth, complement)
    ensures FrontierOf(hs, leaves).WellFormed()
    ensures var w := FrontierWitness(FrontierOf(hs, leaves), depth, complement);
            && (w.Ok? ==> w.value == RefPath(hs, later, |leaves| - 1, depth))
            && (w.Ok? ==>
                PathRoot(hs, leaves[|leaves| - 1], w.value, |leaves| - 1) ==
                Root(hs, later, depth, Above(depth, |leaves| - 1)))
            && (w.Ok? <==> Answers(|leaves| - 1, depth, complement))
            && (w.Err? ==> FirstUnanswered(|leaves| - 1, 0, depth, complement, w.error))
  {
    var pos := |leaves| - 1;
    OmmerCount(hs, leaves, 0, pos);
    OmmersAgree(hs, leaves, later, 0, pos);
    WitnessFromCorrect(hs, later, pos, 0, depth, complement);
    AnswersAll(pos, depth, complement);
    PathFromIsRef(hs, later, 0, pos, depth);
    PathFolds(hs, later, pos, depth);
  }

  // ---------- Frontier of bounded depth ----------

  /** A position is the last one of a tree of the given depth exactly when the tree is full. */
  lemma FullIff(depth: nat, size: nat)
    requires 0 < size <= Pow2(depth)
    ensures IsCompleteSubtree(size - 1, depth) <==> size == Pow2(depth)
    ensures Above(depth, size - 1) == 0
  {
    StartIsShift(depth, 1);
    StartZero(depth);
    AboveUnique(depth, size - 1, 0);
    CompleteIffLast(size - 1, depth);
  }

  /** `Frontier`: a possibly empty frontier of a tree of fixed depth. */
  class Frontier<H> {
    const hs: Hashable<H>
    const depth: nat
    var frontier: Option<NonEmptyFrontier<H>>
    /** The leaves appended so far. */
    ghost var leaves: seq<H>

    ghost predicate Valid()
      reads this
    {
      && |leaves| <= Pow2(depth)
      && frontier == if leaves == [] then None else Some(FrontierOf(hs, leaves))
    }

    constructor (hs: Hashable<H>, depth: nat)
      ensures Valid() && leaves == [] && this.hs == hs && this.depth == depth
    {
      this.hs, this.depth := hs, depth;
      frontier, leaves := None, [];
      new;
      StartIsShift(depth, 1);
    }

    /** `Frontier::append`: fails exactly when all `2^depth` leaves are present. */
    method Append(value: H) returns (ok: bool)
      requires Valid()
      modifies this
      ensures Valid()
      ensures ok <==> |old(leaves)| < Pow2(depth)
      ensures leaves == if ok then old(leaves) + [value] else old(leaves)
    {
      if frontier.Some? {
        FullIff(depth, |leaves|);
        PushedCorrect(hs, leaves, value);
        if IsCompleteSubtree(frontier.value.position, depth) {
          ok := false;
        } else {
          var f := AppendLeaf(hs, frontier.value, value);
          frontier, leaves := Some(f), leaves + [value];
          ok := true;
        }
      } else {
        StartIsShift(depth, 1);
        StartZero(depth);
        frontier, leaves := Some(NonEmptyFrontier(0, value, [])), [value];
        ok := true;
      }
    }

    /** `Frontier::root` */
    method GetRoot() returns (root: H)
      requires Valid()
      ensures root == Root(hs, leaves, depth, 0)
    {
      if frontier.None? {
        RootEmpty(hs, leaves, depth, 0);
        root := EmptyRoot(hs, depth);
      } else {
        FullIff(depth, |leaves|);
        FrontierRootCorrect(hs, leaves, depth);
        root := FrontierRoot(hs, frontier.value, Some(depth));
      }
    }

    /** `Frontier::witness`, given complement nodes that are true in some longer history. */
    method GetWitness(complement: Address -> Option<H>, ghost later: seq<H>)
      returns (r: Result<Option<seq<H>>, Address>)
      requires Valid()
      requires leaves <= later
      requires leaves != [] ==> Sound(hs, later, |leaves| - 1, depth, complement)
      ensures leaves == [] <==> r == Ok(None)
      ensures r.Ok? && leaves != [] ==>
        PathRoot(hs, leaves[|leaves| - 1], r.value.value, |leaves| - 1) == Root(hs, later, depth, 0)
      ensures leaves != [] ==> (r.Ok? <==> Answers(|leaves| - 1, depth, complement))
      ensures leaves != [] && r.Err? ==> FirstUnanswered(|leaves| - 1, 0, depth, complement, r.error)
    {
      if frontier.None? {
        return Ok(None);
      }
      FullIff(depth, |leaves|);
      FrontierWitnessCorrect(hs, leaves, later, depth, complement);
      var w := FrontierWitness(frontier.value, depth, complement);
      r := match w
        case Ok(path) => Ok(Some(path))
        case Err(addr) => Err(addr);
    }
  }
}
