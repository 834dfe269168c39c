/** `shardtree/src/lib.rs`, root computation: hashing shard roots together with a stack, and the cap that
    remembers hashes above the shard level. */
module Caps {

  import opened Basics
  import opened Merkle
  import opened PrunableTrees
  import opened MissingNodes

  // ---------- The shards ----------

  /** One shard per index, each a tree at the shard level. */
  ghost predicate ShardsFit<H>(shards: seq<Located<H>>, sh: nat)
  {
    forall i | 0 <= i < |shards| :: ShardFits(shards[i], sh, i)
  }

  ghost predicate ShardFits<H>(shard: Located<H>, sh: nat, i: nat)
  {
    shard.addr == Address(sh, i) && Fits(sh, shard.root)
  }

  /** The root of a shard; a missing shard is reported by its own address. */
  function ShardRoot<H>(hs: Hashable<H>, shards: seq<Located<H>>, sh: nat, i: nat, cut: nat): Result<H, seq<Address>>
    requires ShardsFit(shards, sh)
  {
    if i < |shards| then assert ShardFits(shards[i], sh, i); RootHash(hs, sh, i, shards[i].root, cut)
      else Err([Address(sh, i)])
  }

  function ErrorsOf<T, E>(r: Result<T, seq<E>>): seq<E>
  {
    match r case Ok(_) => [] case Err(e) => e
  }

  /** Everything missing from the shards `i`, `i + 1`, ... before `last`, up to the truncation point. */
  function MissingFrom<H>(hs: Hashable<H>, shards: seq<Located<H>>, sh: nat, i: nat, last: nat, cut: nat): seq<Address>
    requires ShardsFit(shards, sh)
    decreases last - i
  {
    if i >= last || cut <= Start(sh, i) then []
    else ErrorsOf(ShardRoot(hs, shards, sh, i, cut)) + MissingFrom(hs, shards, sh, i + 1, last, cut)
  }

  /** The root of a node at or above the shard level by plain recursion over the shard roots. */
  function UpperRoot<H>(hs: Hashable<H>, shards: seq<Located<H>>, sh: nat, level: nat, index: nat, cut: nat): H
    requires ShardsFit(shards, sh)
  {
    if cut <= Start(level, index) then EmptyRoot(hs, level)
    else if level <= sh then
      var r := ShardRoot(hs, shards, sh, index, cut); if r.Ok? then r.value else hs.emptyLeaf
    else hs.combine(level - 1, UpperRoot(hs, shards, sh, level - 1, 2 * index, cut),
                    UpperRoot(hs, shards, sh, level - 1, 2 * index + 1, cut))
  }

  lemma {:induction false} ClimbContains(addr: Address, level: nat)
    requires addr.level <= level
    ensures Climb(addr, level).Contains(addr) && Climb(addr, level).level == level
    decreases level - addr.level
  {
    if addr.level < level {
      ClimbContains(addr.Parent(), level);
    }
  }

  /** The root of any node from the shards alone, as `root_from_shards` computes it. */
  function ShardsRoot<H>(hs: Hashable<H>, shards: seq<Located<H>>, sh: nat, address: Address, cut: nat)
      : Result<H, seq<Address>>
    requires ShardsFit(shards, sh)
  {
    if address.level <= sh then
      if cut <= address.RangeStart() then Ok(EmptyRoot(hs, address.level))
      else
        var shardAddr := Climb(address, sh);
        ClimbContains(address, sh);
        if shardAddr.index >= |shards| then Err([shardAddr])
        else
          assert ShardFits(shards[shardAddr.index], sh, shardAddr.index);
          match Subtree(sh, shardAddr.index, shards[shardAddr.index].root, address)
          case None => Err([address])
          case Some(child) => RootHash(hs, address.level, address.index, child, cut)
    else
      var missing := MissingFrom(hs, shards, sh, Start(address.level - sh, address.index),
                                 End(address.level - sh, address.index), cut);
      if missing != [] then Err(missing) else Ok(UpperRoot(hs, shards, sh, address.level, address.index, cut))
  }

  // ---------- The stack ----------

  lemma StartInjective(level: nat, i: nat, j: nat)
    requires Start(level, i) == Start(level, j)
    ensures i == j
  {
    if i < j { StartMono(level, i, j); }
    if j < i { StartMono(level, j, i); }
  }

  /** A position that starts a large subtree starts every smaller one as a left child. */
  lemma {:induction false} StartsBoth(large: nat, i: nat, small: nat, j: nat)
    requires small < large && Start(large, i) == Start(small, j)
    ensures j % 2 == 0 && Start(large, i) == Start(small + 1, j / 2)
  {
    if small + 1 == large {
      StartInjective(small, 2 * i, j);
    } else {
      StartsBoth(large - 1, 2 * i, small, j);
    }
  }

  lemma {:induction false} StartOfStart(sh: nat, h: nat, index: nat)
    ensures Start(sh, Start(h, index)) == Start(sh + h, index)
    decreases h
  {
    if h > 0 { StartOfStart(sh, h - 1, 2 * index); }
  }

  type Entry<H> = (Address, H)

  /** The stack holds roots of adjacent subtrees of falling height from the start of `within` up to a
      position: all left children, unless the only one is `within` itself. */
  ghost predicate StackOk<H>(hs: Hashable<H>, shards: seq<Located<H>>, sh: nat, within: Address, cut: nat,
                             stack: seq<Entry<H>>, upTo: nat)
    requires ShardsFit(shards, sh)
    decreases |stack|
  {
    if stack == [] then upTo == within.RangeStart()
    else
      var (addr, hash) := stack[|stack| - 1];
      var rest := stack[..|stack| - 1];
      && addr.RangeEnd() == upTo && hash == UpperRoot(hs, shards, sh, addr.level, addr.index, cut)
      && sh <= addr.level <= within.level
      && (addr.level < within.level ==> addr.IsLeftChild())
      && (rest != [] ==> addr.level < rest[|rest| - 1].0.level)
      && StackOk(hs, shards, sh, within, cut, rest, addr.RangeStart())
  }

  /** Below a node that starts where the stack ends, the top is its sibling if it is a right child, and
      strictly higher if it is a left child. */
  lemma TopAbove<H>(hs: Hashable<H>, shards: seq<Located<H>>, sh: nat, within: Address, cut: nat, stack: seq<Entry<H>>,
                    addr: Address)
    requires ShardsFit(shards, sh) && StackOk(hs, shards, sh, within, cut, stack, addr.RangeStart())
    requires addr.level <= within.level && addr.RangeStart() < within.RangeEnd()
    requires stack != [] ==> addr.level <= stack[|stack| - 1].0.level
    ensures addr.level == within.level ==> stack == [] && addr == within
    ensures addr.level < within.level && addr.IsLeftChild() && stack != [] ==> addr.level < stack[|stack| - 1].0.level
    ensures addr.level < within.level && addr.IsRightChild() ==> stack != [] && stack[|stack| - 1].0 == addr.Sibling()
  {
    if stack == [] {
      if addr.level < within.level { StartsBoth(within.level, within.index, addr.level, addr.index); }
      else { StartInjective(addr.level, addr.index, within.index); }
    } else {
      var top := stack[|stack| - 1].0;
      if addr.level < top.level { StartsBoth(top.level, top.index + 1, addr.level, addr.index); }
      else { StartInjective(addr.level, addr.index, top.index + 1); }
      if top.level == within.level { StackIsWhole(hs, shards, sh, within, cut, stack, addr.RangeStart()); }
    }
  }

  lemma TopWithin<H>(hs: Hashable<H>, shards: seq<Located<H>>, sh: nat, within: Address, cut: nat,
                     stack: seq<Entry<H>>, upTo: nat)
    requires ShardsFit(shards, sh) && StackOk(hs, shards, sh, within, cut, stack, upTo)
    ensures stack != [] ==> stack[|stack| - 1].0.level <= within.level
  {
  }

  /** A stack whose top is at the level of `within` is that node alone. */
  lemma StackIsWhole<H>(hs: Hashable<H>, shards: seq<Located<H>>, sh: nat, within: Address, cut: nat,
                        stack: seq<Entry<H>>, upTo: nat)
    requires ShardsFit(shards, sh) && StackOk(hs, shards, sh, within, cut, stack, upTo)
    requires stack != [] && stack[|stack| - 1].0.level == within.level
    ensures |stack| == 1 && stack[0].0 == within
  {
    var top := stack[|stack| - 1].0;
    var rest := stack[..|stack| - 1];
    TopWithin(hs, shards, sh, within, cut, rest, top.RangeStart());
    if rest == [] { StartInjective(within.level, top.index, within.index); }
  }

  lemma PushOk<H>(hs: Hashable<H>, shards: seq<Located<H>>, sh: nat, within: Address, cut: nat, stack: seq<Entry<H>>,
                  addr: Address, hash: H)
    requires ShardsFit(shards, sh) && StackOk(hs, shards, sh, within, cut, stack, addr.RangeStart())
    requires hash == UpperRoot(hs, shards, sh, addr.level, addr.index, cut)
    requires sh <= addr.level <= within.level && (addr.level < within.level ==> addr.IsLeftChild())
    requires stack != [] ==> addr.level < stack[|stack| - 1].0.level
    ensures StackOk(hs, shards, sh, within, cut, stack + [(addr, hash)], addr.RangeEnd())
  {
    assert (stack + [(addr, hash)])[..|stack|] == stack;
  }

  /** The root of a parent from a left and a right child, neither of them beyond the truncation point. */
  lemma UpperOfSiblings<H>(hs: Hashable<H>, shards: seq<Located<H>>, sh: nat, right: Address, cut: nat)
    requires ShardsFit(shards, sh) && right.IsRightChild() && sh <= right.level
    requires cut > right.RangeStart()
    ensures UpperRoot(hs, shards, sh, right.level + 1, right.index / 2, cut) ==
      hs.combine(right.level, UpperRoot(hs, shards, sh, right.level, right.index - 1, cut),
                 UpperRoot(hs, shards, sh, right.level, right.index, cut))
  {
    Halves(right.level + 1, right.index / 2);
    assert 2 * (right.index / 2) == right.index - 1;
  }

  /** The root of a parent from a left child that reaches the truncation point. */
  lemma UpperOfLeft<H>(hs: Hashable<H>, shards: seq<Located<H>>, sh: nat, left: Address, cut: nat)
    requires ShardsFit(shards, sh) && left.IsLeftChild() && sh <= left.level
    requires left.RangeStart() < cut <= left.RangeEnd()
    ensures UpperRoot(hs, shards, sh, left.level + 1, left.index / 2, cut) ==
      hs.combine(left.level, UpperRoot(hs, shards, sh, left.level, left.index, cut), EmptyRoot(hs, left.level))
  {
    assert 2 * (left.index / 2) == left.index;
  }

  /** A node on its way into the stack. */
  ghost predicate Merging<H>(hs: Hashable<H>, shards: seq<Located<H>>, sh: nat, within: Address, cut: nat,
                             stack: seq<Entry<H>>,
                             addr: Address, hash: H, upTo: nat)
    requires ShardsFit(shards, sh)
  {
    && sh <= addr.level <= within.level && addr.RangeEnd() == upTo
    && addr.RangeStart() < cut && addr.RangeStart() < within.RangeEnd()
    && hash == UpperRoot(hs, shards, sh, addr.level, addr.index, cut)
    && StackOk(hs, shards, sh, within, cut, stack, addr.RangeStart())
    && (stack != [] ==> addr.level <= stack[|stack| - 1].0.level)
  }

  lemma MergeStep<H>(hs: Hashable<H>, shards: seq<Located<H>>, sh: nat, within: Address, cut: nat, stack: seq<Entry<H>>,
                     addr: Address, hash: H, upTo: nat)
    requires ShardsFit(shards, sh) && Merging(hs, shards, sh, within, cut, stack, addr, hash, upTo)
    requires stack != [] && stack[|stack| - 1].0.Parent() == addr.Parent()
    ensures Merging(hs, shards, sh, within, cut, stack[..|stack| - 1], addr.Parent(),
                    hs.combine(addr.level, stack[|stack| - 1].1, hash), upTo)
  {
    TopAbove(hs, shards, sh, within, cut, stack, addr);
    UpperOfSiblings(hs, shards, sh, addr, cut);
    Halves(addr.level + 1, addr.index / 2);
  }

  lemma MergeDone<H>(hs: Hashable<H>, shards: seq<Located<H>>, sh: nat, within: Address, cut: nat, stack: seq<Entry<H>>,
                     addr: Address, hash: H, upTo: nat)
    requires ShardsFit(shards, sh) && Merging(hs, shards, sh, within, cut, stack, addr, hash, upTo)
    requires stack == [] || stack[|stack| - 1].0.Parent() != addr.Parent()
    ensures StackOk(hs, shards, sh, within, cut, stack + [(addr, hash)], upTo)
  {
    TopAbove(hs, shards, sh, within, cut, stack, addr);
    PushOk(hs, shards, sh, within, cut, stack, addr, hash);
  }

  /** Merges a new shard root into the stack: while the top is the sibling, combine. */
  method Absorb<H>(hs: Hashable<H>, ghost shards: seq<Located<H>>, ghost sh: nat, ghost within: Address, ghost cut: nat,
                   stack: seq<Entry<H>>,
                   addr: Address, hash: H, ghost sound: bool) returns (r: seq<Entry<H>>)
    requires ShardsFit(shards, sh)
    requires sound ==> Merging(hs, shards, sh, within, cut, stack, addr, hash, addr.RangeEnd())
    requires sound ==> addr.level < within.level
    ensures r != []
    ensures sound ==> StackOk(hs, shards, sh, within, cut, r, addr.RangeEnd()) && r[|r| - 1].0.RangeStart() < cut
  {
    if addr.index % 2 == 0 {
      if sound {
        TopAbove(hs, shards, sh, within, cut, stack, addr);
        PushOk(hs, shards, sh, within, cut, stack, addr, hash);
      }
      return stack + [(addr, hash)];
    }
    var rest, curAddr, curHash := stack, addr, hash;
    while rest != [] && rest[|rest| - 1].0.Parent() == curAddr.Parent()
      invariant sound ==> Merging(hs, shards, sh, within, cut, rest, curAddr, curHash, addr.RangeEnd())
      decreases |rest|
    {
      if sound { MergeStep(hs, shards, sh, within, cut, rest, curAddr, curHash, addr.RangeEnd()); }
      var (top, topHash) := rest[|rest| - 1];
      rest := rest[..|rest| - 1];
      curHash := hs.combine(curAddr.level, topHash, curHash);
      curAddr := curAddr.Parent();
    }
    if sound { MergeDone(hs, shards, sh, within, cut, rest, curAddr, curHash, addr.RangeEnd()); }
    r := rest + [(curAddr, curHash)];
  }

  lemma StackAbove<H>(hs: Hashable<H>, shards: seq<Located<H>>, sh: nat, within: Address, cut: nat,
                      stack: seq<Entry<H>>, upTo: nat)
    requires ShardsFit(shards, sh) && StackOk(hs, shards, sh, within, cut, stack, upTo)
    ensures stack != [] ==> sh <= stack[|stack| - 1].0.level
  {
  }

  /** Hashes a node with empty right siblings up to the given level. */
  method PadRight<H>(hs: Hashable<H>, ghost shards: seq<Located<H>>, ghost sh: nat, ghost cut: nat, addr: Address,
                     hash: H, level: nat)
    returns (padded: Address, r: H)
    requires ShardsFit(shards, sh) && sh <= addr.level <= level
    requires hash == UpperRoot(hs, shards, sh, addr.level, addr.index, cut)
    requires addr.level < level ==> addr.RangeStart() < cut <= addr.RangeEnd()
    requires exists i: nat :: Start(level, i) == addr.RangeStart()
    ensures padded.level == level && padded.RangeStart() == addr.RangeStart() && padded.RangeEnd() >= addr.RangeEnd()
    ensures addr.level == level ==> padded == addr
    ensures r == UpperRoot(hs, shards, sh, padded.level, padded.index, cut)
  {
    ghost var i: nat :| Start(level, i) == addr.RangeStart();
    padded, r := addr, hash;
    while padded.level < level
      invariant sh <= padded.level <= level
      invariant r == UpperRoot(hs, shards, sh, padded.level, padded.index, cut)
      invariant padded.RangeStart() == addr.RangeStart() == Start(level, i) && padded.RangeEnd() >= addr.RangeEnd()
      invariant addr.level == level ==> padded == addr
      invariant padded.level < level ==> addr.RangeStart() < cut <= addr.RangeEnd()
      decreases level - padded.level
    {
      StartsBoth(level, i, padded.level, padded.index);
      UpperOfLeft(hs, shards, sh, padded, cut);
      Halves(padded.level + 1, padded.index / 2);
      r := hs.combine(padded.level, r, EmptyRoot(hs, padded.level));
      padded := padded.Parent();
    }
  }

  /** Before the end of `within`, the top of the stack is a left child. */
  lemma TopIsLeft<H>(hs: Hashable<H>, shards: seq<Located<H>>, sh: nat, within: Address, cut: nat,
                     stack: seq<Entry<H>>, upTo: nat)
    requires ShardsFit(shards, sh) && StackOk(hs, shards, sh, within, cut, stack, upTo) && upTo < within.RangeEnd()
    ensures stack != [] ==> stack[|stack| - 1].0.level < within.level && stack[|stack| - 1].0.IsLeftChild()
  {
    if stack != [] && stack[|stack| - 1].0.level == within.level {
      StackIsWhole(hs, shards, sh, within, cut, stack, upTo);
    }
  }

  /** A node below `within` that starts a larger subtree does not end where `within` ends. */
  lemma StartsLarger(addr: Address, within: Address, large: nat, i: nat)
    requires addr.level < within.level && addr.level < large && Start(large, i) == addr.RangeStart()
    ensures addr.RangeEnd() != within.RangeEnd()
  {
    StartsBoth(large, i, addr.level, addr.index);
    if addr.RangeEnd() == within.RangeEnd() { StartsBoth(within.level, within.index + 1, addr.level, addr.index + 1); }
  }

  /** A node on its way down the stack: everything right of it is beyond the truncation point. */
  ghost predicate Collapsing<H>(hs: Hashable<H>, shards: seq<Located<H>>, sh: nat, within: Address, cut: nat,
                                stack: seq<Entry<H>>, addr: Address, hash: H)
    requires ShardsFit(shards, sh)
  {
    && sh <= addr.level <= within.level && hash == UpperRoot(hs, shards, sh, addr.level, addr.index, cut)
    && StackOk(hs, shards, sh, within, cut, stack, addr.RangeStart())
    && (stack != [] ==> addr.level <= stack[|stack| - 1].0.level)
    && addr.RangeStart() < cut && addr.RangeStart() < within.RangeEnd()
    && (addr.level < within.level ==> addr.RangeEnd() == within.RangeEnd() || cut <= addr.RangeEnd())
  }

  /** What padding up to the level of the next node needs. */
  ghost predicate Paddable(addr: Address, level: nat, cut: nat)
  {
    && addr.level <= level && (exists i: nat :: Start(level, i) == addr.RangeStart())
    && (addr.level < level ==> addr.RangeStart() < cut <= addr.RangeEnd())
  }

  lemma PaddableToTop<H>(hs: Hashable<H>, shards: seq<Located<H>>, sh: nat, within: Address, cut: nat,
                         stack: seq<Entry<H>>, addr: Address, hash: H)
    requires ShardsFit(shards, sh) && Collapsing(hs, shards, sh, within, cut, stack, addr, hash) && stack != []
    ensures Paddable(addr, stack[|stack| - 1].0.level, cut) && stack[|stack| - 1].0.level < within.level
  {
    var top := stack[|stack| - 1].0;
    TopIsLeft(hs, shards, sh, within, cut, stack, addr.RangeStart());
    assert Start(top.level, top.index + 1) == addr.RangeStart();
    if addr.level < top.level { StartsLarger(addr, within, top.level, top.index + 1); }
  }

  lemma PaddableToRoot<H>(hs: Hashable<H>, shards: seq<Located<H>>, sh: nat, within: Address, cut: nat,
                          addr: Address, hash: H)
    requires ShardsFit(shards, sh) && Collapsing(hs, shards, sh, within, cut, [], addr, hash)
    ensures Paddable(addr, within.level, cut)
  {
    assert Start(within.level, within.index) == addr.RangeStart();
    if addr.level < within.level { StartsLarger(addr, within, within.level, within.index); }
  }

  /** Joining the padded node with the top of the stack. */
  lemma JoinTop<H>(hs: Hashable<H>, shards: seq<Located<H>>, sh: nat, within: Address, cut: nat, stack: seq<Entry<H>>,
                   addr: Address, hash: H,
                   padded: Address, paddedHash: H)
    requires ShardsFit(shards, sh) && Collapsing(hs, shards, sh, within, cut, stack, addr, hash) && stack != []
    requires padded.level == stack[|stack| - 1].0.level < within.level && padded.RangeStart() == addr.RangeStart()
      && padded.RangeEnd() >= addr.RangeEnd()
    requires addr.level == padded.level ==> padded == addr
    requires addr.level < padded.level ==> cut <= addr.RangeEnd()
    requires paddedHash == UpperRoot(hs, shards, sh, padded.level, padded.index, cut)
    ensures Collapsing(hs, shards, sh, within, cut, stack[..|stack| - 1], padded.Parent(),
                       hs.combine(padded.level, stack[|stack| - 1].1, paddedHash))
  {
    var top := stack[|stack| - 1].0;
    TopIsLeft(hs, shards, sh, within, cut, stack, addr.RangeStart());
    StartInjective(top.level, top.index + 1, padded.index);
    UpperOfSiblings(hs, shards, sh, padded, cut);
    Halves(padded.level + 1, padded.index / 2);
  }

  /** Collapses a nonempty stack into the root of `within`. */
  method Collapse<H>(hs: Hashable<H>, ghost shards: seq<Located<H>>, ghost sh: nat, within: Address, ghost cut: nat,
                     stack: seq<Entry<H>>, ghost upTo: nat)
    returns (r: H)
    requires ShardsFit(shards, sh) && stack != [] && StackOk(hs, shards, sh, within, cut, stack, upTo)
    requires upTo <= within.RangeEnd() && stack[|stack| - 1].0.RangeStart() < cut
    requires upTo < within.RangeEnd() ==> cut <= upTo
    ensures r == UpperRoot(hs, shards, sh, within.level, within.index, cut)
  {
    var rest := stack[..|stack| - 1];
    var (curAddr, curHash) := stack[|stack| - 1];
    StartMono(curAddr.level, curAddr.index, curAddr.index + 1);
    while rest != []
      invariant Collapsing(hs, shards, sh, within, cut, rest, curAddr, curHash)
      decreases |rest|
    {
      var (top, topHash) := rest[|rest| - 1];
      PaddableToTop(hs, shards, sh, within, cut, rest, curAddr, curHash);
      var padded, hash := PadRight(hs, shards, sh, cut, curAddr, curHash, top.level);
      JoinTop(hs, shards, sh, within, cut, rest, curAddr, curHash, padded, hash);
      curAddr, curHash, rest := padded.Parent(), hs.combine(padded.level, topHash, hash), rest[..|rest| - 1];
    }
    PaddableToRoot(hs, shards, sh, within, cut, curAddr, curHash);
    curAddr, curHash := PadRight(hs, shards, sh, cut, curAddr, curHash, within.level);
    StartInjective(within.level, within.index, curAddr.index);
    r := curHash;
  }

  // ---------- `root_from_shards` ----------

  /** What a shard lacks for its root; a shard that is not there lacks itself. */
  ghost predicate ShardLacks<H>(shards: seq<Located<H>>, sh: nat, i: nat, cut: nat, addr: Address)
    requires ShardsFit(shards, sh)
  {
    Start(sh, i) < cut &&
    if i < |shards| then ShardFits(shards[i], sh, i) && Lacks(sh, i, shards[i].root, cut, addr)
      else addr == Address(sh, i)
  }

  ghost predicate SomeShardLacks<H>(shards: seq<Located<H>>, sh: nat, first: nat, last: nat, cut: nat, addr: Address)
    requires ShardsFit(shards, sh)
  {
    exists i :: first <= i < last && ShardLacks(shards, sh, i, cut, addr)
  }

  /** A report of exactly what the shards of a range lack, each once and from left to right. */
  ghost predicate RangeReport<H>(shards: seq<Located<H>>, sh: nat, first: nat, last: nat, cut: nat,
                                 missing: seq<Address>)
    requires ShardsFit(shards, sh)
  {
    && (forall addr :: addr in missing <==> SomeShardLacks(shards, sh, first, last, cut, addr))
    && LeftToRight(missing)
  }

  /** A report of exactly what is lacking for the root of an address: of the shards below it, or of its own node in
      the shard above it. */
  ghost predicate RootReport<H>(shards: seq<Located<H>>, sh: nat, address: Address, cut: nat, missing: seq<Address>)
    requires ShardsFit(shards, sh)
  {
    if sh < address.level then
      RangeReport(shards, sh, Start(address.level - sh, address.index), End(address.level - sh, address.index), cut,
                  missing)
    else if cut <= address.RangeStart() then missing == []
    else
      var shard := Climb(address, sh);
      if shard.index >= |shards| then missing == [shard]
      else
        && ShardFits(shards[shard.index], sh, shard.index)
        && match NodeAt(sh, shard.index, shards[shard.index].root, address)
           case None => missing == [address]
           case Some(node) => Reports(address.level, address.index, node, cut, missing)
  }

  lemma ShardReports<H>(hs: Hashable<H>, shards: seq<Located<H>>, sh: nat, i: nat, cut: nat)
    requires ShardsFit(shards, sh) && Start(sh, i) < cut
    ensures var missing := ErrorsOf(ShardRoot(hs, shards, sh, i, cut));
            && (forall addr :: addr in missing <==> ShardLacks(shards, sh, i, cut, addr))
            && LeftToRight(missing) && AllWithin(missing, Start(sh, i), End(sh, i))
  {
    StartMono(sh, i, i + 1);
    if i < |shards| {
      assert ShardFits(shards[i], sh, i);
      RootHashReports(hs, sh, i, shards[i].root, cut);
    }
  }

  /** What is gathered from the shards of a range is exactly what they lack. */
  lemma {:induction false} MissingReports<H>(hs: Hashable<H>, shards: seq<Located<H>>, sh: nat, i: nat, last: nat,
                                             cut: nat)
    requires ShardsFit(shards, sh) && i <= last
    ensures var missing := MissingFrom(hs, shards, sh, i, last, cut);
            RangeReport(shards, sh, i, last, cut, missing) && AllWithin(missing, Start(sh, i), Start(sh, last))
    decreases last - i
  {
    StartMono(sh, i, last);
    if i < last && Start(sh, i) < cut {
      ShardReports(hs, shards, sh, i, cut);
      MissingReports(hs, shards, sh, i + 1, last, cut);
      StartMono(sh, i, i + 1);
      StartMono(sh, i + 1, last);
      JoinedInOrder(ErrorsOf(ShardRoot(hs, shards, sh, i, cut)), MissingFrom(hs, shards, sh, i + 1, last, cut),
                    Start(sh, i), Start(sh, i + 1), Start(sh, last));
      forall addr ensures SomeShardLacks(shards, sh, i, last, cut, addr) <==>
        ShardLacks(shards, sh, i, cut, addr) || SomeShardLacks(shards, sh, i + 1, last, cut, addr)
      {
        OneMoreShard(shards, sh, i, last, cut, addr);
      }
    } else {
      forall addr ensures !SomeShardLacks(shards, sh, i, last, cut, addr) {
        forall k | i <= k < last ensures !ShardLacks(shards, sh, k, cut, addr) { StartMono(sh, i, k); }
      }
    }
  }

  lemma OneMoreShard<H>(shards: seq<Located<H>>, sh: nat, i: nat, last: nat, cut: nat, addr: Address)
    requires ShardsFit(shards, sh) && i < last
    ensures SomeShardLacks(shards, sh, i, last, cut, addr) <==>
      ShardLacks(shards, sh, i, cut, addr) || SomeShardLacks(shards, sh, i + 1, last, cut, addr)
  {
    hide ShardLacks;
    if SomeShardLacks(shards, sh, i, last, cut, addr) && !ShardLacks(shards, sh, i, cut, addr) {
      var k :| i <= k < last && ShardLacks(shards, sh, k, cut, addr);
      assert i + 1 <= k;
    }
  }

  /** The root over the shards exists exactly if nothing is lacking, and what is reported is exactly what is. */
  lemma ShardsRootReports<H>(hs: Hashable<H>, shards: seq<Located<H>>, sh: nat, address: Address, cut: nat)
    requires ShardsFit(shards, sh)
    ensures var r := ShardsRoot(hs, shards, sh, address, cut);
            RootReport(shards, sh, address, cut, ErrorsOf(r)) && (r.Err? ==> r.error != [])
  {
    if sh < address.level {
      var first, last := Start(address.level - sh, address.index), End(address.level - sh, address.index);
      StartMono(address.level - sh, address.index, address.index + 1);
      MissingReports(hs, shards, sh, first, last, cut);
    } else if address.RangeStart() < cut {
      var shard := Climb(address, sh);
      ClimbContains(address, sh);
      if shard.index < |shards| {
        assert ShardFits(shards[shard.index], sh, shard.index);
        var node := Subtree(sh, shard.index, shards[shard.index].root, address);
        if node.Some? { RootHashReports(hs, address.level, address.index, node.value, cut); }
      }
    }
  }

  lemma ShardRootErrors<H>(hs: Hashable<H>, shards: seq<Located<H>>, sh: nat, i: nat, cut: nat)
    requires ShardsFit(shards, sh)
    ensures ErrorsOf(ShardRoot(hs, shards, sh, i, cut)) == [] <==> ShardRoot(hs, shards, sh, i, cut).Ok?
  {
    if i < |shards| {
      assert ShardFits(shards[i], sh, i);
      RootHashReports(hs, sh, i, shards[i].root, cut);
    }
  }

  /** The stack after the shards before `index`, as long as none of them was incomplete. */
  ghost predicate Gathered<H>(hs: Hashable<H>, shards: seq<Located<H>>, sh: nat, address: Address, cut: nat, first: nat,
                              stack: seq<Entry<H>>, index: nat)
    requires ShardsFit(shards, sh)
  {
    && StackOk(hs, shards, sh, address, cut, stack, Start(sh, index))
    && (stack == [] ==> index == first)
    && (stack != [] ==> stack[|stack| - 1].0.RangeStart() < cut)
  }

  lemma NextIncoming<H>(hs: Hashable<H>, shards: seq<Located<H>>, sh: nat, address: Address, cut: nat, first: nat,
                        last: nat, stack: seq<Entry<H>>, index: nat, hash: H)
    requires ShardsFit(shards, sh) && Gathered(hs, shards, sh, address, cut, first, stack, index)
    requires index < last && Start(sh, last) == address.RangeEnd() && sh < address.level && Start(sh, index) < cut
    requires ShardRoot(hs, shards, sh, index, cut) == Ok(hash)
    ensures Merging(hs, shards, sh, address, cut, stack, Address(sh, index), hash, End(sh, index))
  {
    StartMono(sh, index, last);
    StackAbove(hs, shards, sh, address, cut, stack, Start(sh, index));
  }

  /** What the next shard adds to the missing nodes. */
  lemma MissingNext<H>(hs: Hashable<H>, shards: seq<Located<H>>, sh: nat, i: nat, last: nat, cut: nat)
    requires ShardsFit(shards, sh) && i < last && Start(sh, i) < cut
    ensures var r, rest := ShardRoot(hs, shards, sh, i, cut), MissingFrom(hs, shards, sh, i + 1, last, cut);
            && MissingFrom(hs, shards, sh, i, last, cut) == (if r.Ok? then rest else r.error + rest)
            && (r.Err? ==> r.error != [])
  {
    ShardRootErrors(hs, shards, sh, i, cut);
    var rest := MissingFrom(hs, shards, sh, i + 1, last, cut);
    assert [] + rest == rest;
  }

  /** The loop over the shards. */
  method GatherRoots<H>(hs: Hashable<H>, shards: seq<Located<H>>, sh: nat, address: Address, cut: nat,
                        first: nat, last: nat)
    returns (stack: seq<Entry<H>>, incomplete: seq<Address>, index: nat)
    requires ShardsFit(shards, sh) && sh < address.level && first < last
    requires Start(sh, first) == address.RangeStart() && Start(sh, last) == address.RangeEnd()
    ensures first <= index <= last && (index < last ==> cut <= Start(sh, index))
    ensures incomplete == MissingFrom(hs, shards, sh, first, last, cut)
    ensures RangeReport(shards, sh, first, last, cut, incomplete)
    ensures incomplete == [] ==> Gathered(hs, shards, sh, address, cut, first, stack, index)
  {
    stack, incomplete, index := [], [], first;
    while index < last && Start(sh, index) < cut
      invariant first <= index <= last
      invariant incomplete + MissingFrom(hs, shards, sh, index, last, cut) ==
        MissingFrom(hs, shards, sh, first, last, cut)
      invariant incomplete == [] ==> Gathered(hs, shards, sh, address, cut, first, stack, index)
    {
      MissingNext(hs, shards, sh, index, last, cut);
      match ShardRoot(hs, shards, sh, index, cut) {
        case Ok(hash) =>
          if incomplete == [] { NextIncoming(hs, shards, sh, address, cut, first, last, stack, index, hash); }
          stack := Absorb(hs, shards, sh, address, cut, stack, Address(sh, index), hash, incomplete == []);
        case Err(more) =>
          incomplete := incomplete + more;
      }
      index := index + 1;
    }
    assert incomplete + [] == incomplete;
    MissingReports(hs, shards, sh, first, last, cut);
  }

  /** `root_from_shards`: the root of the address over the shards, or all of the shards' missing nodes. */
  method RootFromShards<H>(hs: Hashable<H>, shards: seq<Located<H>>, sh: nat, address: Address, cut: nat)
    returns (r: Result<H, seq<Address>>)
    requires ShardsFit(shards, sh)
    ensures r == ShardsRoot(hs, shards, sh, address, cut)
    ensures RootReport(shards, sh, address, cut, ErrorsOf(r)) && (r.Err? ==> r.error != [])
  {
    ShardsRootReports(hs, shards, sh, address, cut);
    if address.level <= sh {
      return ShardsRoot(hs, shards, sh, address, cut);
    }
    var h := address.level - sh;
    var first, last := Start(h, address.index), End(h, address.index);
    StartOfStart(sh, h, address.index);
    StartOfStart(sh, h, address.index + 1);
    StartMono(h, address.index, address.index + 1);
    var stack, incomplete, index := GatherRoots(hs, shards, sh, address, cut, first, last);
    if incomplete != [] { return Err(incomplete); }
    if stack == [] { return Ok(EmptyRoot(hs, address.level)); }
    StartMono(sh, index, last);
    var root := Collapse(hs, shards, sh, address, cut, stack, Start(sh, index));
    r := Ok(root);
  }

  // ---------- Soundness ----------

  /** Every shard is a view of the tree over the leaves. */
  ghost predicate ShardsConsistent<H>(hs: Hashable<H>, leaves: seq<H>, shards: seq<Located<H>>, sh: nat)
  {
    forall i | 0 <= i < |shards| :: Consistent(hs, leaves, sh, i, shards[i].root)
  }

  lemma ShardRootSound<H>(hs: Hashable<H>, leaves: seq<H>, shards: seq<Located<H>>, sh: nat, i: nat, cut: nat)
    requires ShardsFit(shards, sh) && ShardsConsistent(hs, leaves, shards, sh)
    ensures var r := ShardRoot(hs, shards, sh, i, cut);
            r.Ok? ==> r.value == Root(hs, Take(leaves, cut), sh, i)
    ensures var r := ShardRoot(hs, shards, sh, i, cut);
            r.Ok? && End(sh, i) <= cut ==> End(sh, i) <= |leaves|
  {
    if i < |shards| {
      assert ShardFits(shards[i], sh, i);
      RootHashSound(hs, leaves, sh, i, shards[i].root, cut);
      if End(sh, i) <= cut { WholeIsWithin(hs, leaves, sh, i, shards[i].root, cut); }
    }
  }

  /** An untruncated root of a view is computable only if all of its leaves are there. */
  lemma {:induction false} WholeIsWithin<H>(hs: Hashable<H>, leaves: seq<H>, level: nat, index: nat,
                                            t: Tree<H>, cut: nat)
    requires Consistent(hs, leaves, level, index, t) && Fits(level, t) && End(level, index) <= cut
    ensures RootHash(hs, level, index, t, cut).Ok? ==> End(level, index) <= |leaves|
    decreases t
  {
    StartMono(level, index, index + 1);
    if t.Parent? {
      Halves(level, index);
      WholeIsWithin(hs, leaves, level - 1, 2 * index + 1, t.right, cut);
    }
  }
}
