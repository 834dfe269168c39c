/** What the shards and checkpoints of a `ShardTree` mean: the shards hold exactly the appended leaves, and
    every checkpoint the leaves there were when it was taken. One lemma per change to the shards. */
module ShardStates {

  import opened Basics
  import opened Merkle
  import opened PrunableTrees
  import opened Pruning
  import opened DenseTrees
  import opened Stores
  import opened Caps
  import opened RootCaches
  import opened ExcessCheckpoints

  // ---------- Shards ----------

  ghost predicate ShardOk<H>(hs: Hashable<H>, sh: nat, leaves: seq<H>, shard: Located<H>, i: nat)
  {
    && ShardFits(shard, sh, i)
    && Dense(sh, i, |leaves|, shard.root)
    && Consistent(hs, leaves, sh, i, shard.root)
    && Tight(shard.root)
  }

  /** How many shards it takes to hold `n` leaves. */
  function ShardCount(sh: nat, n: nat): nat
  {
    if n == 0 then 0 else Above(sh, n - 1) + 1
  }

  /** The shards hold exactly these leaves. */
  ghost predicate Filled<H>(hs: Hashable<H>, sh: nat, leaves: seq<H>, shards: seq<Located<H>>)
  {
    |shards| == ShardCount(sh, |leaves|) && forall i | 0 <= i < |shards| :: ShardOk(hs, sh, leaves, shards[i], i)
  }

  lemma FilledFits<H>(hs: Hashable<H>, sh: nat, leaves: seq<H>, shards: seq<Located<H>>)
    requires Filled(hs, sh, leaves, shards)
    ensures ShardsFit(shards, sh) && ShardsConsistent(hs, leaves, shards, sh)
  {
    forall i | 0 <= i < |shards| ensures ShardFits(shards[i], sh, i) && Consistent(hs, leaves, sh, i, shards[i].root) {
      assert ShardOk(hs, sh, leaves, shards[i], i);
    }
  }

  /** The flags that the shards keep at a position. */
  ghost function FlagsAt<H>(sh: nat, shards: seq<Located<H>>, p: nat): Flags
  {
    var i := Above(sh, p);
    if i < |shards| && Fits(sh, shards[i].root) then FlagAt(sh, i, shards[i].root, p) else EPHEMERAL
  }

  /** Which shard holds a position, relative to the number of leaves. */
  lemma ShardOfPosition(sh: nat, n: nat, p: nat)
    ensures Start(sh, Above(sh, p)) <= p < End(sh, Above(sh, p))
    ensures p < n ==> Above(sh, p) < ShardCount(sh, n)
    ensures p == n ==> Above(sh, p) == ShardCount(sh, n) || Above(sh, p) + 1 == ShardCount(sh, n)
    ensures p == n ==> (Above(sh, p) == ShardCount(sh, n) <==> n == 0 || n == End(sh, Above(sh, n - 1)))
  {
    AboveRange(sh, p);
    if n > 0 {
      var last := Above(sh, n - 1);
      AboveRange(sh, n - 1);
      if p < n && Above(sh, p) > last { StartMono(sh, last + 1, Above(sh, p)); }
      if p == n {
        if n == End(sh, last) { StartMono(sh, last + 1, last + 2); AboveUnique(sh, n, last + 1); }
        else { AboveUnique(sh, n, last); }
      }
    } else if p == 0 {
      StartZero(sh);
      AboveUnique(sh, 0, 0);
    }
  }

  /** Shards before the one of a position end before it. */
  lemma EarlierShards(sh: nat, i: nat, p: nat)
    requires i < Above(sh, p)
    ensures End(sh, i) <= p
  {
    AboveRange(sh, p);
    StartMono(sh, i + 1, Above(sh, p));
  }

  lemma FilledUpdate<H>(hs: Hashable<H>, sh: nat, leaves: seq<H>, shards: seq<Located<H>>, shard: Located<H>, i: nat)
    requires Filled(hs, sh, leaves, shards) && i < |shards| && ShardOk(hs, sh, leaves, shard, i)
    ensures Filled(hs, sh, leaves, shards[i := shard])
  {
    var updated := shards[i := shard];
    forall j | 0 <= j < |updated| ensures ShardOk(hs, sh, leaves, updated[j], j) {
      assert ShardOk(hs, sh, leaves, shards[j], j);
    }
  }

  // ---------- Appending ----------

  /** The shard that takes the next leaf: the last one, or a new one if that is full. */
  function NextShard<H>(sh: nat, shards: seq<Located<H>>): Located<H>
  {
    if shards == [] then Located(Address(sh, 0), Nil)
    else
      var last := shards[|shards| - 1];
      if last.root.IsFull() then Located(Address(last.addr.level, last.addr.index + 1), Nil) else last
  }

  /** That shard is the one of the next position, and it holds the leaves it should. */
  lemma NextShardOk<H>(hs: Hashable<H>, sh: nat, leaves: seq<H>, shards: seq<Located<H>>)
    requires Filled(hs, sh, leaves, shards)
    ensures var next := NextShard(sh, shards);
            && ShardOk(hs, sh, leaves, next, Above(sh, |leaves|))
            && Start(sh, Above(sh, |leaves|)) <= |leaves| < End(sh, Above(sh, |leaves|))
            && (if Above(sh, |leaves|) < |shards| then next == shards[Above(sh, |leaves|)] else next.root == Nil)
            && Above(sh, |leaves|) <= |shards| <= Above(sh, |leaves|) + 1
            && MaxPosition(sh, next.addr.index, next.root) ==
              if |leaves| == Start(sh, next.addr.index) then None else Some(|leaves| - 1)
  {
    var n := |leaves|;
    ShardOfPosition(sh, n, n);
    if n > 0 {
      ShardOfPosition(sh, n, n - 1);
      var i := Above(sh, n - 1);
      assert ShardOk(hs, sh, leaves, shards[i], i);
      DenseTip(sh, i, n, shards[i].root);
    } else {
      StartZero(sh);
    }
  }

  /** Placing the next leaf in its shard. */
  lemma AppendedFilled<H>(hs: Hashable<H>, sh: nat, leaves: seq<H>, shards: seq<Located<H>>, value: H, flags: Flags,
                          shard: Located<H>, updated: seq<Located<H>>)
    requires Filled(hs, sh, leaves, shards)
    requires var i := Above(sh, |leaves|);
             var t := if i < |shards| then shards[i].root else Nil;
             && Fits(sh, t) && Address(sh, i).Contains(Address(0, |leaves|))
             && var r := Insert(hs, sh, i, t, Located(Address(0, |leaves|), Leaf(value, flags)), flags.marked);
                r.Ok? && shard == Located(Address(sh, i), r.value.0)
    requires Above(sh, |leaves|) <= |shards|
    requires updated ==
      if Above(sh, |leaves|) < |shards| then shards[Above(sh, |leaves|) := shard] else shards + [shard]
    ensures Filled(hs, sh, leaves + [value], updated)
    ensures forall p :: FlagsAt(sh, updated, p) == if p == |leaves| then flags else FlagsAt(sh, shards, p)
  {
    var n, i := |leaves|, Above(sh, |leaves|);
    var t := if i < |shards| then shards[i].root else Nil;
    ShardOfPosition(sh, n, n);
    ShardOfPosition(sh, n + 1, n);
    if i < |shards| { assert ShardOk(hs, sh, leaves, shards[i], i); }
    AppendedShard(hs, sh, leaves, i, t, value, flags);
    forall j | 0 <= j < |updated| ensures ShardOk(hs, sh, leaves + [value], updated[j], j) {
      if j != i {
        assert ShardOk(hs, sh, leaves, shards[j], j);
        ConsistentGrow(hs, leaves, [value], sh, j, shards[j].root);
        EarlierShards(sh, j, n);
        DenseMore(sh, j, n, shards[j].root);
      }
    }
    forall p ensures FlagsAt(sh, updated, p) == if p == n then flags else FlagsAt(sh, shards, p) {
      AppendedFlags(hs, sh, leaves, i, t, value, flags, p);
      if i < |shards| { assert Fits(sh, shards[i].root); }
    }
  }

  lemma AppendedShard<H>(hs: Hashable<H>, sh: nat, leaves: seq<H>, i: nat, t: Tree<H>, value: H, flags: Flags)
    requires Fits(sh, t) && Dense(sh, i, |leaves|, t) && Consistent(hs, leaves, sh, i, t) && Tight(t)
    requires Start(sh, i) <= |leaves| < End(sh, i)
    ensures Address(sh, i).Contains(Address(0, |leaves|))
    ensures var r := Insert(hs, sh, i, t, Located(Address(0, |leaves|), Leaf(value, flags)), flags.marked);
            r.Ok? && ShardOk(hs, sh, leaves + [value], Located(Address(sh, i), r.value.0), i)
  {
    InsertNext(hs, sh, i, |leaves|, t, value, flags, |leaves|);
    AppendedConsistent(hs, sh, leaves, i, t, value, flags);
    InsertTight(hs, sh, i, t, Located(Address(0, |leaves|), Leaf(value, flags)), flags.marked);
  }

  lemma AppendedConsistent<H>(hs: Hashable<H>, sh: nat, leaves: seq<H>, i: nat, t: Tree<H>, value: H, flags: Flags)
    requires Fits(sh, t) && Consistent(hs, leaves, sh, i, t) && Address(sh, i).Contains(Address(0, |leaves|))
    ensures var r := Insert(hs, sh, i, t, Located(Address(0, |leaves|), Leaf(value, flags)), flags.marked);
            r.Ok? && Consistent(hs, leaves + [value], sh, i, r.value.0)
  {
    var leaf := Located(Address(0, |leaves|), Leaf(value, flags));
    ConsistentGrow(hs, leaves, [value], sh, i, t);
    assert Consistent(hs, leaves + [value], 0, |leaves|, leaf.root);
    InsertSucceeds(hs, leaves + [value], sh, i, t, leaf, flags.marked);
  }

  lemma AppendedFlags<H>(hs: Hashable<H>, sh: nat, leaves: seq<H>, i: nat, t: Tree<H>, value: H, flags: Flags, p: nat)
    requires Fits(sh, t) && Dense(sh, i, |leaves|, t) && Start(sh, i) <= |leaves| < End(sh, i)
    ensures Address(sh, i).Contains(Address(0, |leaves|))
    ensures var r := Insert(hs, sh, i, t, Located(Address(0, |leaves|), Leaf(value, flags)), flags.marked);
            && r.Ok? && Fits(sh, r.value.0)
            && FlagAt(sh, i, r.value.0, p) == if p == |leaves| then flags else FlagAt(sh, i, t, p)
  {
    InsertNext(hs, sh, i, |leaves|, t, value, flags, p);
  }

  // ---------- Checkpointing, truncating, clearing ----------

  /** Adding the checkpoint flag to the last leaf. */
  lemma TippedFilled<H>(hs: Hashable<H>, sh: nat, leaves: seq<H>, shards: seq<Located<H>>)
    requires Filled(hs, sh, leaves, shards) && leaves != []
    ensures |shards| > 0 && Fits(sh, shards[|shards| - 1].root)
      && shards[|shards| - 1].addr == Address(sh, |shards| - 1)
    ensures var i := |shards| - 1;
            var r := MarkTip(hs, sh, i, shards[i].root);
            && r.Some? && r.value.1 == |leaves| - 1 && i == Above(sh, |leaves| - 1)
            && var updated := shards[i := Located(Address(sh, i), r.value.0)];
               && Filled(hs, sh, leaves, updated)
               && forall p ::
                 FlagsAt(sh, updated, p) ==
                 if p == |leaves| - 1 then FlagsAt(sh, shards, p).Or(CHECKPOINT) else FlagsAt(sh, shards, p)
  {
    var i := |shards| - 1;
    assert ShardOk(hs, sh, leaves, shards[i], i);
    AboveRange(sh, |leaves| - 1);
    MarkTipExact(hs, leaves, sh, i, |leaves|, shards[i].root, 0);
    MarkTipTight(hs, sh, i, shards[i].root);
    var r := MarkTip(hs, sh, i, shards[i].root);
    var shard := Located(Address(sh, i), r.value.0);
    FilledUpdate(hs, sh, leaves, shards, shard, i);
    forall p ensures FlagsAt(sh, shards[i := shard], p) ==
      if p == |leaves| - 1 then FlagsAt(sh, shards, p).Or(CHECKPOINT) else FlagsAt(sh, shards, p)
    {
      AboveRange(sh, p);
      MarkTipExact(hs, leaves, sh, i, |leaves|, shards[i].root, p);
    }
  }

  /** Cutting the shards back to the leaves up to a position whose leaf is still flagged. */
  lemma TruncatedFilled<H>(hs: Hashable<H>, sh: nat, leaves: seq<H>, shards: seq<Located<H>>, position: nat)
    requires Filled(hs, sh, leaves, shards) && position < |leaves|
    requires FlagsAt(sh, shards, position) != EPHEMERAL || position + 1 == |leaves|
    ensures Above(sh, position) < |shards| && Fits(sh, shards[Above(sh, position)].root)
    ensures var i := Above(sh, position);
            var r := TruncateTo(hs, sh, i, shards[i].root, position);
            && r.Some?
            && var updated := shards[..i] + [Located(Address(sh, i), r.value)];
               && Filled(hs, sh, leaves[..position + 1], updated)
               && forall p: nat ::
                 FlagsAt(sh, updated, p) == if p <= position then FlagsAt(sh, shards, p) else EPHEMERAL
  {
    var n, i := |leaves|, Above(sh, position);
    ShardOfPosition(sh, n, position);
    ShardOfPosition(sh, position + 1, position);
    assert ShardOk(hs, sh, leaves, shards[i], i);
    FlaggedEnds(sh, i, n, shards[i].root, position);
    TruncateExact(hs, leaves, sh, i, n, shards[i].root, position, 0);
    TruncateTight(hs, sh, i, shards[i].root, position);
    var r := TruncateTo(hs, sh, i, shards[i].root, position);
    var updated := shards[..i] + [Located(Address(sh, i), r.value)];
    assert leaves[..position + 1] == Take(leaves, position + 1);
    forall j | 0 <= j < |updated| ensures ShardOk(hs, sh, leaves[..position + 1], updated[j], j) {
      if j < i {
        assert ShardOk(hs, sh, leaves, shards[j], j);
        EarlierShards(sh, j, position);
        DenseLess(sh, j, n, shards[j].root, position + 1);
        ConsistentCut(hs, leaves, sh, j, position + 1, shards[j].root);
      } else {
        ConsistentCut(hs, leaves, sh, i, position + 1, r.value);
      }
    }
    forall p: nat ensures FlagsAt(sh, updated, p) == if p <= position then FlagsAt(sh, shards, p) else EPHEMERAL {
      TruncatedFlags(hs, sh, leaves, shards, position, p);
    }
  }

  lemma TruncatedFlags<H>(hs: Hashable<H>, sh: nat, leaves: seq<H>, shards: seq<Located<H>>, position: nat, p: nat)
    requires Filled(hs, sh, leaves, shards) && position < |leaves|
    requires Above(sh, position) < |shards| && Fits(sh, shards[Above(sh, position)].root)
    requires TruncateTo(hs, sh, Above(sh, position), shards[Above(sh, position)].root, position).Some?
    ensures var i := Above(sh, position);
            var updated := shards[..i]
              + [Located(Address(sh, i), TruncateTo(hs, sh, i, shards[i].root, position).value)];
            FlagsAt(sh, updated, p) == if p <= position then FlagsAt(sh, shards, p) else EPHEMERAL
  {
    var i, j := Above(sh, position), Above(sh, p);
    AboveRange(sh, p);
    AboveRange(sh, position);
    assert ShardOk(hs, sh, leaves, shards[i], i);
    TruncateExact(hs, leaves, sh, i, |leaves|, shards[i].root, position, p);
    if j < i { EarlierShards(sh, j, position); }
    if j > i { EarlierShards(sh, i, p); }
  }

  /** What clearing flags does to every shard; panics in none of them. */
  ghost predicate ClearedShards<H>(hs: Hashable<H>, sh: nat, clear: Clears, shards: seq<Located<H>>,
                                   updated: seq<Located<H>>)
  {
    |updated| == |shards| && forall i | 0 <= i < |shards| :: ClearedShard(hs, sh, clear, shards[i], updated[i], i)
  }

  ghost predicate ClearedShard<H>(hs: Hashable<H>, sh: nat, clear: Clears, shard: Located<H>,
                                  updated: Located<H>, i: nat)
  {
    && ShardFits(shard, sh, i) && updated.addr == shard.addr
    && ClearFlags(hs, sh, i, Wanted(clear, i), shard.root) == Some(updated.root)
  }

  /** Checkpoint flags are only cleared where there are some. */
  ghost predicate Clearable<H>(sh: nat, clear: Clears, shards: seq<Located<H>>)
  {
    forall p :: Pending(clear, sh, p).checkpoint ==> FlagsAt(sh, shards, p).checkpoint
  }

  lemma ClearableShard<H>(sh: nat, clear: Clears, shards: seq<Located<H>>, i: nat)
    requires Placed(clear, sh) && Clearable(sh, clear, shards) && i < |shards| && Fits(sh, shards[i].root)
    ensures ClearsCheckpoints(sh, i, Wanted(clear, i), shards[i].root)
  {
    WantedExact(clear, sh, i, 0);
    var toClear := Wanted(clear, i);
    forall k | 0 <= k < |toClear| && toClear[k].1.checkpoint
      ensures FlagAt(sh, i, shards[i].root, toClear[k].0).checkpoint
    {
      AboveUnique(sh, toClear[k].0, i);
      assert FlagsAt(sh, shards, toClear[k].0).checkpoint;
    }
  }

  /** Clearing keeps the leaves and clears exactly the flags it was asked to. */
  lemma ClearedFilled<H>(hs: Hashable<H>, sh: nat, leaves: seq<H>, clear: Clears, shards: seq<Located<H>>,
                         updated: seq<Located<H>>)
    requires Filled(hs, sh, leaves, shards) && Placed(clear, sh) && Clearable(sh, clear, shards)
    requires ClearedShards(hs, sh, clear, shards, updated)
    ensures Filled(hs, sh, leaves, updated)
    ensures forall p :: FlagsAt(sh, updated, p) == FlagsAt(sh, shards, p).Minus(Pending(clear, sh, p))
  {
    forall i | 0 <= i < |updated| ensures ShardOk(hs, sh, leaves, updated[i], i) {
      assert ShardOk(hs, sh, leaves, shards[i], i) && ClearedShard(hs, sh, clear, shards[i], updated[i], i);
      ClearConsistent(hs, leaves, sh, i, Wanted(clear, i), shards[i].root);
      ClearDense(hs, sh, i, |leaves|, Wanted(clear, i), shards[i].root);
      ClearFits(hs, sh, i, Wanted(clear, i), shards[i].root);
      ClearTight(hs, sh, i, Wanted(clear, i), shards[i].root);
    }
    forall p ensures FlagsAt(sh, updated, p) == FlagsAt(sh, shards, p).Minus(Pending(clear, sh, p)) {
      var i := Above(sh, p);
      if i < |shards| {
        assert ShardOk(hs, sh, leaves, shards[i], i) && ClearedShard(hs, sh, clear, shards[i], updated[i], i);
        AboveRange(sh, p);
        WantedExact(clear, sh, i, p);
        ClearableShard(sh, clear, shards, i);
        ClearDenseExact(hs, sh, i, |leaves|, Wanted(clear, i), shards[i].root, p);
      }
    }
  }

  // ---------- When clearing panics ----------

  /** Two positions with something to clear lie under one leaf. */
  ghost predicate WillPanic<H>(sh: nat, shards: seq<Located<H>>, checkpoints: map<int, Checkpoint>, max: nat)
  {
    exists p: nat, q: nat :: Collides(sh, shards, checkpoints, max, p, q)
  }

  ghost predicate Collides<H>(sh: nat, shards: seq<Located<H>>, checkpoints: map<int, Checkpoint>, max: nat,
                              p: nat, q: nat)
  {
    var i := Above(sh, p);
    && p < q && Above(sh, q) == i < |shards| && Fits(sh, shards[i].root)
    && Cleared(checkpoints, max, p) != EPHEMERAL && Cleared(checkpoints, max, q) != EPHEMERAL
    && SameLeaf(sh, i, shards[i].root, p, q)
  }

  /** A position is among the entries exactly when something is to be cleared there. */
  lemma EntryAt(clear: Clears, sh: nat, i: nat, p: nat) returns (k: nat)
    requires Placed(clear, sh) && Above(sh, p) == i && Pending(clear, sh, p) != EPHEMERAL
    ensures k < |Wanted(clear, i)| && Wanted(clear, i)[k].0 == p
  {
    AboveRange(sh, p);
    WantedExact(clear, sh, i, p);
    var toClear := Wanted(clear, i);
    if forall k | 0 <= k < |toClear| :: toClear[k].0 != p { ClearedAtAbsent(toClear, p); }
    k :| 0 <= k < |toClear| && toClear[k].0 == p;
  }

  lemma EntriesOrdered(toClear: seq<(nat, Flags)>, from: nat, to: nat, j: nat, k: nat)
    requires SortedWithin(toClear, from, to) && j < |toClear| && k < |toClear| && toClear[j].0 < toClear[k].0
    ensures j < k
  {
  }

  /** Some shard's clearing panics exactly when two positions collide. */
  lemma PanicsIff<H>(hs: Hashable<H>, sh: nat, clear: Clears, shards: seq<Located<H>>,
                     checkpoints: map<int, Checkpoint>, max: nat)
    requires ShardsFit(shards, sh) && Placed(clear, sh) && forall p: nat ::
      Pending(clear, sh, p) == Cleared(checkpoints, max, p)
    ensures WillPanic(sh, shards, checkpoints, max) <==> exists i: nat :: ShardPanics(hs, sh, clear, shards, i)
  {
    if WillPanic(sh, shards, checkpoints, max) {
      var p: nat, q: nat :| Collides(sh, shards, checkpoints, max, p, q);
      var i := Above(sh, p);
      assert ShardFits(shards[i], sh, i);
      WantedExact(clear, sh, i, 0);
      var j := EntryAt(clear, sh, i, p);
      var k := EntryAt(clear, sh, i, q);
      EntriesOrdered(Wanted(clear, i), Start(sh, i), End(sh, i), j, k);
      assert ClashAt(sh, i, Wanted(clear, i), shards[i].root, j, k);
      ClearPanicsIff(hs, sh, i, Wanted(clear, i), shards[i].root);
      assert ShardPanics(hs, sh, clear, shards, i);
    }
    if exists i: nat :: ShardPanics(hs, sh, clear, shards, i) {
      var i: nat :| ShardPanics(hs, sh, clear, shards, i);
      ShardCollides(hs, sh, clear, shards, i, checkpoints, max);
    }
  }

  ghost predicate ShardPanics<H>(hs: Hashable<H>, sh: nat, clear: Clears, shards: seq<Located<H>>, i: nat)
  {
    i < |shards| && ShardFits(shards[i], sh, i) && ClearFlags(hs, sh, i, Wanted(clear, i), shards[i].root).None?
  }

  lemma EntryIsCleared(clear: Clears, sh: nat, i: nat, k: nat)
    requires Placed(clear, sh) && k < |Wanted(clear, i)|
    ensures var p := Wanted(clear, i)[k].0; Above(sh, p) == i && Pending(clear, sh, p) != EPHEMERAL
  {
    WantedExact(clear, sh, i, 0);
    WantedNonEmpty(clear, i, k);
    AboveUnique(sh, Wanted(clear, i)[k].0, i);
  }

  lemma ShardCollides<H>(hs: Hashable<H>, sh: nat, clear: Clears, shards: seq<Located<H>>, i: nat,
                         checkpoints: map<int, Checkpoint>, max: nat)
    requires Placed(clear, sh) && forall p: nat :: Pending(clear, sh, p) == Cleared(checkpoints, max, p)
    requires ShardPanics(hs, sh, clear, shards, i)
    ensures WillPanic(sh, shards, checkpoints, max)
  {
    WantedExact(clear, sh, i, 0);
    var toClear := Wanted(clear, i);
    ClearPanicsIff(hs, sh, i, toClear, shards[i].root);
    var j, k :| ClashAt(sh, i, toClear, shards[i].root, j, k);
    ClashCollides(sh, clear, shards, i, checkpoints, max, j, k);
  }

  lemma ClashCollides<H>(sh: nat, clear: Clears, shards: seq<Located<H>>, i: nat, checkpoints: map<int, Checkpoint>,
                         max: nat, j: nat, k: nat)
    requires Placed(clear, sh) && forall p: nat :: Pending(clear, sh, p) == Cleared(checkpoints, max, p)
    requires i < |shards| && ShardFits(shards[i], sh, i) && ClashAt(sh, i, Wanted(clear, i), shards[i].root, j, k)
    ensures WillPanic(sh, shards, checkpoints, max)
  {
    EntryIsCleared(clear, sh, i, j);
    EntryIsCleared(clear, sh, i, k);
    WantedExact(clear, sh, i, 0);
    var p, q := Wanted(clear, i)[j].0, Wanted(clear, i)[k].0;
    assert p < q;
    assert Collides(sh, shards, checkpoints, max, p, q);
  }

  lemma WantedNonEmpty(clear: Clears, i: nat, k: nat)
    requires k < |Wanted(clear, i)|
    ensures Wanted(clear, i)[k].1 != EPHEMERAL
  {
    hide Entries, InOrder;
    var positions := InOrder(clear[i].Keys);
    assert forall k | 0 <= k < |positions| :: positions[k] in positions && positions[k] in clear[i].Keys;
    EntriesNonEmpty(clear[i], positions);
  }

  lemma {:induction false} EntriesNonEmpty(m: map<nat, Flags>, positions: seq<int>)
    requires forall i | 0 <= i < |positions| :: positions[i] >= 0 && positions[i] in m
    ensures forall k | 0 <= k < |Entries(m, positions)| :: Entries(m, positions)[k].1 != EPHEMERAL
  {
    if positions != [] { EntriesNonEmpty(m, positions[1..]); }
  }

  /** Two flagged positions are never under one leaf. */
  lemma {:induction false} FlaggedApart<H>(level: nat, index: nat, t: Tree<H>, p: nat, q: nat)
    requires Fits(level, t) && p < q
    requires FlagAt(level, index, t, p) != EPHEMERAL && FlagAt(level, index, t, q) != EPHEMERAL
    ensures !SameLeaf(level, index, t, p, q)
    decreases t
  {
    if t.Parent? {
      var mid := End(level - 1, 2 * index);
      if p < mid && q < mid { FlaggedApart(level - 1, 2 * index, t.left, p, q); }
      if p >= mid && q >= mid { FlaggedApart(level - 1, 2 * index + 1, t.right, p, q); }
    }
  }

  /** Pruning does not panic as long as every flag to be cleared is still there. */
  lemma NoPanicWhenFlagged<H>(sh: nat, shards: seq<Located<H>>, checkpoints: map<int, Checkpoint>, max: nat)
    requires forall p: nat :: Cleared(checkpoints, max, p) != EPHEMERAL ==> FlagsAt(sh, shards, p) != EPHEMERAL
    ensures !WillPanic(sh, shards, checkpoints, max)
  {
    if WillPanic(sh, shards, checkpoints, max) {
      var p: nat, q: nat :| Collides(sh, shards, checkpoints, max, p, q);
      var i := Above(sh, p);
      assert Cleared(checkpoints, max, p) != EPHEMERAL ==> FlagsAt(sh, shards, p) != EPHEMERAL;
      FlaggedApart(sh, i, shards[i].root, p, q);
    }
  }

  // ---------- An example of a collision ----------

  /** A mark and a checkpoint on the first two leaves say what the shard over them looks like. */
  lemma PairShape<H>(hs: Hashable<H>, a: H, b: H, shards: seq<Located<H>>)
    requires Filled(hs, 1, [a, b], shards) && FlagsAt(1, shards, 0) == MARKED && FlagsAt(1, shards, 1) == CHECKPOINT
    ensures shards == [Located(Address(1, 0), Parent(None, Leaf(a, MARKED), Leaf(b, CHECKPOINT)))]
  {
    assert Start(0, 0) == 0 && End(0, 0) == 1 && Start(0, 1) == 1 && End(0, 1) == 2;
    assert Start(1, 0) == 0 && End(1, 0) == 2 && Above(1, 1) == 0 && Above(1, 0) == 0;
    assert ShardOk(hs, 1, [a, b], shards[0], 0);
    var t := shards[0].root;
    assert FlagAt(1, 0, t, 0) == MARKED && FlagAt(1, 0, t, 1) == CHECKPOINT;
    assert t.Parent?;
    assert FlagAt(0, 0, t.left, 0) == MARKED && FlagAt(0, 1, t.right, 1) == CHECKPOINT;
    assert t.left == Leaf(a, MARKED) by { assert Dense(0, 0, 2, t.left) && Consistent(hs, [a, b], 0, 0, t.left); }
    assert t.right == Leaf(b, CHECKPOINT) by {
      assert Dense(0, 1, 2, t.right) && Consistent(hs, [a, b], 0, 1, t.right);
    }
  }

  /** Clearing the mark at once prunes the two leaves into one. */
  lemma PairCleared<H>(hs: Hashable<H>, a: H, b: H)
    ensures var two := Parent(None, Leaf(a, MARKED), Leaf(b, CHECKPOINT));
            Fits(1, two) && ClearFlags(hs, 1, 0, [(0, MARKED)], two) == Some(Leaf(hs.combine(0, a, b), CHECKPOINT))
  {
    var two := Parent(None, Leaf(a, MARKED), Leaf(b, CHECKPOINT));
    var entries: seq<(nat, Flags)> := [(0, MARKED)];
    assert entries[1..] == [] && PartitionPoint(entries[1..], 1) == 0 && PartitionPoint(entries, 1) == 1;
    assert entries[..1] == entries;
    assert Fits(0, two.left) && Fits(0, two.right) && Fits(1, two);
  }

  /** Of two checkpoints the first goes; it alone owes the flags of its leaf and of the mark it lists. */
  lemma FirstOfTwo(checkpoints: map<int, Checkpoint>, p: nat)
    requires checkpoints == map[1 := Checkpoint(AtPosition(1), {0}), 2 := Checkpoint(AtPosition(2), {})]
    ensures p < 2 ==> Cleared(checkpoints, 1, p) != EPHEMERAL
  {
    var ids := InOrder(checkpoints.Keys);
    assert checkpoints.Keys == {1, 2};
    assert |checkpoints| == |checkpoints.Keys| == 2;
    assert ids == [1, 2] by { assert ids[0] in ids && ids[1] in ids; }
    var removed, kept := Removed(checkpoints, 1), Kept(checkpoints, 1);
    assert removed == [1] && kept == [2];
    OwedIff(checkpoints, removed, p);
    OwedIff(checkpoints, kept, p);
    assert p == 0 ==> p in checkpoints[removed[0]].marksRemoved;
    assert p == 1 ==> checkpoints[removed[0]].treeState == AtPosition(p);
  }

  /** Both positions then lie under the one leaf. */
  lemma PairCollides<H>(shards: seq<Located<H>>, value: H, checkpoints: map<int, Checkpoint>)
    requires shards != [] && shards[0].root == Leaf(value, CHECKPOINT)
    requires checkpoints == map[1 := Checkpoint(AtPosition(1), {0}), 2 := Checkpoint(AtPosition(2), {})]
    ensures WillPanic(1, shards, checkpoints, 1)
  {
    FirstOfTwo(checkpoints, 0);
    FirstOfTwo(checkpoints, 1);
    OneLeafCollides(shards, value, checkpoints);
  }

  lemma OneLeafCollides<H>(shards: seq<Located<H>>, value: H, checkpoints: map<int, Checkpoint>)
    requires shards != [] && shards[0].root == Leaf(value, CHECKPOINT)
    requires Cleared(checkpoints, 1, 0) != EPHEMERAL && Cleared(checkpoints, 1, 1) != EPHEMERAL
    ensures WillPanic(1, shards, checkpoints, 1)
  {
    assert Above(1, 1) == 0 && Above(1, 0) == 0;
    assert Collides(1, shards, checkpoints, 1, 0, 1);
  }

  // ---------- Checkpoints ----------

  /** A checkpoint stands for the leaves there were when it was taken, and its leaf is still flagged. */
  ghost predicate CheckpointOk<H>(sh: nat, leaves: seq<H>, shards: seq<Located<H>>, snapshot: seq<H>, c: Checkpoint)
  {
    && snapshot <= leaves
    && match c.treeState
       case Empty => snapshot == []
       case AtPosition(p) => |snapshot| == p + 1 && FlagsAt(sh, shards, p).checkpoint
  }

  ghost predicate Recorded<H>(sh: nat, leaves: seq<H>, saved: map<int, seq<H>>, shards: seq<Located<H>>,
                              checkpoints: map<int, Checkpoint>)
  {
    && (forall id :: id in saved <==> id in checkpoints)
    && (forall id | id in checkpoints :: CheckpointOk(sh, leaves, shards, saved[id], checkpoints[id]))
    && (forall i, j | i in saved && j in saved && i < j :: |saved[i]| <= |saved[j]|)
  }

  /** Everything a shard tree keeps true: the shards hold the leaves and the checkpoints their prefixes. */
  ghost predicate TreeOk<H>(hs: Hashable<H>, depth: nat, sh: nat, leaves: seq<H>, saved: map<int, seq<H>>, s: Store<H>)
  {
    && sh <= depth && |leaves| <= End(depth, 0) && Fits(depth - sh, s.cap)
    && Filled(hs, sh, leaves, s.shards)
    && Recorded(sh, leaves, saved, s.shards, s.checkpoints)
  }

  /** Growing the leaves and keeping the checkpoint flags keeps the records. */
  lemma RecordedKept<H>(sh: nat, leaves: seq<H>, saved: map<int, seq<H>>, shards: seq<Located<H>>,
                        checkpoints: map<int, Checkpoint>,
                        grown: seq<H>, updated: seq<Located<H>>)
    requires Recorded(sh, leaves, saved, shards, checkpoints) && leaves <= grown
    requires forall p: nat :: p < |leaves| && FlagsAt(sh, shards, p).checkpoint ==> FlagsAt(sh, updated, p).checkpoint
    ensures Recorded(sh, grown, saved, updated, checkpoints)
  {
    forall id | id in checkpoints ensures CheckpointOk(sh, grown, updated, saved[id], checkpoints[id]) {
      assert CheckpointOk(sh, leaves, shards, saved[id], checkpoints[id]);
    }
  }

  /** Recording the present leaves under a later identifier. */
  lemma RecordedNow<H>(sh: nat, leaves: seq<H>, saved: map<int, seq<H>>, shards: seq<Located<H>>,
                       checkpoints: map<int, Checkpoint>, id: int, c: Checkpoint)
    requires Recorded(sh, leaves, saved, shards, checkpoints) && forall i | i in checkpoints :: i < id
    requires CheckpointOk(sh, leaves, shards, leaves, c)
    ensures Recorded(sh, leaves, saved[id := leaves], shards, checkpoints[id := c])
  {
    var more, all := saved[id := leaves], checkpoints[id := c];
    forall i | i in all ensures CheckpointOk(sh, leaves, shards, more[i], all[i]) {
      if i != id { assert CheckpointOk(sh, leaves, shards, saved[i], checkpoints[i]); }
    }
    forall i | i in saved ensures |saved[i]| <= |leaves| && i < id {
      assert i in checkpoints && CheckpointOk(sh, leaves, shards, saved[i], checkpoints[i]);
    }
  }

  /** Forgetting some checkpoints. */
  lemma RecordedFewer<H>(sh: nat, leaves: seq<H>, saved: map<int, seq<H>>, shards: seq<Located<H>>,
                         checkpoints: map<int, Checkpoint>,
                         fewer: map<int, Checkpoint>, kept: map<int, seq<H>>)
    requires Recorded(sh, leaves, saved, shards, checkpoints)
    requires forall id | id in fewer :: id in checkpoints && fewer[id].treeState == checkpoints[id].treeState
    requires forall id :: id in kept <==> id in fewer
    requires forall id | id in kept :: id in saved && kept[id] == saved[id]
    ensures Recorded(sh, leaves, kept, shards, fewer)
  {
    forall id | id in fewer ensures CheckpointOk(sh, leaves, shards, kept[id], fewer[id]) {
      assert CheckpointOk(sh, leaves, shards, saved[id], checkpoints[id]);
    }
  }

  /** Going back to a checkpoint: the earlier ones are prefixes of what remains. */
  lemma RecordedBack<H>(sh: nat, leaves: seq<H>, saved: map<int, seq<H>>, shards: seq<Located<H>>,
                        checkpoints: map<int, Checkpoint>, id: int,
                        updated: seq<Located<H>>, fewer: map<int, Checkpoint>, kept: map<int, seq<H>>)
    requires Recorded(sh, leaves, saved, shards, checkpoints) && id in checkpoints
    requires forall i | i in fewer :: i in checkpoints && i <= id && fewer[i].treeState == checkpoints[i].treeState
    requires forall i :: i in kept <==> i in fewer
    requires forall i | i in kept :: i in saved && kept[i] == saved[i]
    requires forall p: nat :: p < |saved[id]| && FlagsAt(sh, shards, p).checkpoint ==>
      FlagsAt(sh, updated, p).checkpoint
    ensures Recorded(sh, saved[id], kept, updated, fewer)
  {
    assert CheckpointOk(sh, leaves, shards, saved[id], checkpoints[id]);
    forall i | i in fewer ensures CheckpointOk(sh, saved[id], updated, kept[i], fewer[i]) {
      assert CheckpointOk(sh, leaves, shards, saved[i], checkpoints[i]);
      assert i < id ==> |saved[i]| <= |saved[id]|;
      PrefixOfPrefix(saved[i], saved[id], leaves);
    }
  }

  lemma PrefixOfPrefix<H>(a: seq<H>, b: seq<H>, whole: seq<H>)
    requires a <= whole && b <= whole && |a| <= |b|
    ensures a <= b
  {
    assert forall k | 0 <= k < |a| :: a[k] == whole[k] == b[k];
  }

  // ---------- Roots and witnesses ----------

  /** A truncation point at the tip, or just after a flagged leaf. */
  ghost predicate CutOk<H>(sh: nat, leaves: seq<H>, shards: seq<Located<H>>, cut: nat)
  {
    cut == |leaves| || cut == 0 || (cut < |leaves| && FlagsAt(sh, shards, cut - 1) != EPHEMERAL)
  }

  lemma ShardAnswerable<H>(hs: Hashable<H>, sh: nat, leaves: seq<H>, shards: seq<Located<H>>, cut: nat, i: nat)
    requires Filled(hs, sh, leaves, shards) && CutOk(sh, leaves, shards, cut) && i < |shards|
    ensures ShardOk(hs, sh, leaves, shards[i], i) && Answerable(sh, i, |leaves|, shards[i].root, cut)
  {
    assert ShardOk(hs, sh, leaves, shards[i], i);
    if Start(sh, i) < cut < End(sh, i) { AboveUnique(sh, cut - 1, i); }
  }

  /** At such a point every shard root that is needed can be computed. */
  lemma FilledKnown<H>(hs: Hashable<H>, sh: nat, leaves: seq<H>, shards: seq<Located<H>>, cut: nat,
                       first: nat, last: nat)
    requires Filled(hs, sh, leaves, shards) && CutOk(sh, leaves, shards, cut)
    ensures ShardsFit(shards, sh) && Known(hs, shards, sh, first, last, cut)
  {
    FilledFits(hs, sh, leaves, shards);
    forall i | first <= i < last && Start(sh, i) < cut ensures ShardRoot(hs, shards, sh, i, cut).Ok? {
      StartMono(sh, i, i + 1);
      AboveUnique(sh, Start(sh, i), i);
      ShardOfPosition(sh, |leaves|, Start(sh, i));
      ShardAnswerable(hs, sh, leaves, shards, cut, i);
      DenseRoot(hs, sh, i, |leaves|, shards[i].root, cut);
    }
  }

  /** The root of any node at or above the shard level is answered, and is that of the truncated leaves. */
  lemma RootAnswered<H>(hs: Hashable<H>, depth: nat, sh: nat, leaves: seq<H>, shards: seq<Located<H>>, cap: Tree<H>,
                        target: Address, cut: nat)
    requires sh <= depth && Filled(hs, sh, leaves, shards) && CutOk(sh, leaves, shards, cut)
    requires CapOk(hs, leaves, sh, Address(depth, 0), cap) && Address(depth, 0).Contains(target) && sh <= target.level
    ensures ShardsFit(shards, sh)
    ensures var r := RootInternal(hs, shards, sh, Address(depth, 0), cap, target, cut);
            && r.Ok? && r.value.root == Root(hs, Take(leaves, cut), target.level, target.index)
            && (r.value.replacement.Some? ==> CapOk(hs, leaves, sh, Address(depth, 0), r.value.replacement.value))
  {
    FilledFits(hs, sh, leaves, shards);
    FilledKnown(hs, sh, leaves, shards, cut, Start(target.level - sh, target.index),
                End(target.level - sh, target.index));
    RootInternalAnswers(hs, shards, sh, Address(depth, 0), cap, target, cut);
    RootInternalSound(hs, leaves, shards, sh, Address(depth, 0), cap, target, cut);
  }

  /** Within its shard, the witness of a leaf before such a point exists exactly when the shard has a height
      and the leaf is marked, and is then made of the true sibling hashes. */
  lemma ShardWitness<H>(hs: Hashable<H>, sh: nat, leaves: seq<H>, shards: seq<Located<H>>, position: nat, cut: nat)
    requires Filled(hs, sh, leaves, shards) && CutOk(sh, leaves, shards, cut) && position < cut
    ensures Above(sh, position) < |shards| && Fits(sh, shards[Above(sh, position)].root)
    ensures var i := Above(sh, position);
            var w := TreeWitness(hs, sh, i, shards[i].root, position, cut);
            && (w.Ok? <==> sh > 0 && FlagsAt(sh, shards, position).marked)
            && (w.Ok? ==> w.value == RefPath(hs, Take(leaves, cut), position, sh))
  {
    var i := Above(sh, position);
    ShardOfPosition(sh, |leaves|, position);
    ShardAnswerable(hs, sh, leaves, shards, cut, i);
    DenseWitness(hs, sh, i, |leaves|, shards[i].root, position, cut);
    TreeWitnessSound(hs, leaves, sh, i, shards[i].root, position, cut);
  }
}
