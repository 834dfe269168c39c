/** `bridgetree/src/lib.rs`, first part: bridges, the deltas from which witnesses are rebuilt. */
module Bridges {

  import opened Basics
  import opened Merkle
  import opened Frontiers

  datatype ContinuityError = PriorPositionNotFound | PositionMismatch(expected: nat, found: nat)

  datatype MerkleBridge<H> = MerkleBridge(
    priorPosition: Option<nat>,
    tracking: set<Address>,
    ommers: map<Address, H>,
    frontier: NonEmptyFrontier<H>)
  {
    function Position(): nat { frontier.position }

    /** `check_continuity`: the error this bridge and a following one give, if any. */
    function ContinuityProblem(next: MerkleBridge<H>): Option<ContinuityError>
    {
      match next.priorPosition
      case None => Some(PriorPositionNotFound)
      case Some(pos) => if pos == Position() then None else Some(PositionMismatch(Position(), pos))
    }

    function Successor(trackCurrentLeaf: bool): MerkleBridge<H>
    {
      var result := MerkleBridge(Some(Position()), tracking, map[], frontier);
      if trackCurrentLeaf then result.TrackCurrentLeaf() else result
    }

    function TrackCurrentLeaf(): MerkleBridge<H>
    {
      this.(tracking := tracking + {CurrentIncomplete(Address(0, Position()))})
    }

    function Fuse(next: MerkleBridge<H>): Result<MerkleBridge<H>, ContinuityError>
    {
      match ContinuityProblem(next)
      case Some(e) => Err(e)
      case None => Ok(MerkleBridge(priorPosition, next.tracking, ommers + next.ommers, next.frontier))
    }

    function Retain(ommerAddrs: set<Address>): MerkleBridge<H>
    {
      this.(tracking := (set a | a in tracking && a.Sibling() in ommerAddrs),
            ommers := (map a | a in ommers && a in ommerAddrs :: ommers[a]))
    }
  }

  function NewBridge<H>(value: H): MerkleBridge<H>
  {
    MerkleBridge(None, {}, map[], NonEmptyFrontier(0, value, []))
  }

  /** `fuse_all`, with the bridges fused so far in `acc`. */
  function FuseAll<H>(acc: MerkleBridge<H>, rest: seq<MerkleBridge<H>>): Result<MerkleBridge<H>, ContinuityError>
    decreases |rest|
  {
    if rest == [] then Ok(acc)
    else
      match acc.Fuse(rest[0])
      case Err(e) => Err(e)
      case Ok(fused) => FuseAll(fused, rest[1..])
  }

  // ---------- Append ----------

  /** The tracked addresses whose level is completed by a leaf at `position`. */
  function Found(tracking: set<Address>, position: nat): set<Address>
  {
    set a | a in tracking && IsCompleteSubtree(position, a.level)
  }

  function Siblings(addrs: set<Address>): set<Address>
  {
    set a | a in addrs :: a.Sibling()
  }

  function NextParents(addrs: set<Address>): set<Address>
  {
    set a | a in addrs :: NextIncompleteParent(a)
  }

  /** The hash of the node above the tip, for each given address at that address's level. */
  function Digests<H>(hs: Hashable<H>, frontier: NonEmptyFrontier<H>, addrs: set<Address>): (r: map<Address, H>)
    requires frontier.WellFormed()
    ensures r.Keys == addrs
  {
    map a | a in addrs :: FrontierRoot(hs, frontier, Some(a.level))
  }

  /** The bridge after one leaf: every completed sibling is stored, and tracking moves up. */
  function Appended<H>(hs: Hashable<H>, b: MerkleBridge<H>, value: H): MerkleBridge<H>
    requires b.frontier.WellFormed()
  {
    var frontier := Pushed(hs, b.frontier, value);
    var found := Found(b.tracking, frontier.position);
    MerkleBridge(
      b.priorPosition,
      b.tracking - found + NextParents(found),
      b.ommers + Digests(hs, frontier, Siblings(found)),
      frontier)
  }

  /** What a tracked address is after `n` leaves: a complete left child whose sibling is not complete. */
  ghost predicate TrackOk(a: Address, n: nat)
  {
    a.IsLeftChild() && a.RangeEnd() <= n < a.Sibling().RangeEnd()
  }

  ghost predicate TrackingOk(tracking: set<Address>, n: nat)
  {
    forall a | a in tracking :: TrackOk(a, n)
  }

  /** At most one tracked address per level. */
  lemma OnePerLevel(a: Address, b: Address, n: nat)
    requires TrackOk(a, n) && TrackOk(b, n) && a.level == b.level
    ensures a == b
  {
    AboveUnique(a.level, n, a.index + 1);
    AboveUnique(a.level, n, b.index + 1);
  }

  /** A tracked address is found by the leaf at position `n` exactly when that leaf is the last one
      below its sibling; the node of that level above the leaf is then the sibling itself. */
  lemma FoundIff(a: Address, n: nat)
    requires TrackOk(a, n)
    ensures Above(a.level, n) == a.Sibling().index
    ensures IsCompleteSubtree(n, a.level) <==> a.Sibling().RangeEnd() == n + 1
  {
    AboveUnique(a.level, n, a.index + 1);
    CompleteIffLast(n, a.level);
  }

  /** When the sibling of a tracked address completes, its next incomplete parent is trackable, and
      it lies above every leaf of the old address with only right children in between. */
  lemma NextParentOk(a: Address, n: nat, pos: nat)
    requires TrackOk(a, n) && a.Sibling().RangeEnd() == n + 1
    requires Above(a.level, pos) == a.index
    ensures var p := NextIncompleteParent(a);
            && TrackOk(p, n + 1) && p.level > a.level && Above(p.level, pos) == p.index
            && p !in Found({a}, n)
            && forall k | a.level < k < p.level :: Above(k, pos) % 2 == 1
  {
    var right := Address(a.level, a.index + 1);
    var parent := a.Parent();
    assert CurrentIncomplete(right) == CurrentIncomplete(parent);
    assert Above(a.level + 1, pos) == a.index / 2;
    assert parent.RangeEnd() == Start(a.level, 2 * (a.index / 2) + 2);
    CurrentIncompleteRange(parent, pos);
    var p := NextIncompleteParent(a);
    StartMono(p.level, p.index + 1, p.index + 2);
  }

  /** Every leaf position below an address has that address as its ancestor. */
  lemma SomePosition(a: Address)
    ensures Above(a.level, a.RangeStart()) == a.index
  {
    StartMono(a.level, a.index, a.index + 1);
    AboveUnique(a.level, a.RangeStart(), a.index);
  }

  lemma TrackingKept(tracking: set<Address>, n: nat)
    requires TrackingOk(tracking, n)
    ensures var found := Found(tracking, n);
            && TrackingOk(tracking - found + NextParents(found), n + 1)
            && NextParents(found) !! found
            && forall a | a in Siblings(found) :: a.IsRightChild()
  {
    var found := Found(tracking, n);
    forall a | a in tracking - found ensures TrackOk(a, n + 1) { FoundIff(a, n); }
    forall a | a in found
      ensures TrackOk(NextIncompleteParent(a), n + 1) && a.Sibling().RangeEnd() == n + 1
    {
      FoundIff(a, n);
      SomePosition(a);
      NextParentOk(a, n, a.RangeStart());
    }
  }

  lemma DigestsAdd<H>(hs: Hashable<H>, frontier: NonEmptyFrontier<H>, found: set<Address>, a: Address)
    requires frontier.WellFormed()
    ensures Digests(hs, frontier, Siblings(found + {a}))
         == Digests(hs, frontier, Siblings(found))[a.Sibling() := FrontierRoot(hs, frontier, Some(a.level))]
  {
    assert Siblings(found + {a}) == Siblings(found) + {a.Sibling()};
  }

  lemma FoundAdd(addrs: set<Address>, a: Address, position: nat)
    ensures Found(addrs + {a}, position) ==
      if IsCompleteSubtree(position, a.level) then Found(addrs, position) + {a} else Found(addrs, position)
  {
  }

  lemma UpdateSum<K, V>(a: map<K, V>, b: map<K, V>, k: K, v: V)
    ensures (a + b)[k := v] == a + b[k := v]
  {
  }

  /** First loop of `MerkleBridge::append`: stores the digest of every completed sibling. */
  method StoreCompleted<H>(hs: Hashable<H>, frontier: NonEmptyFrontier<H>, tracking: set<Address>,
                           ommers0: map<Address, H>)
    returns (ommers: map<Address, H>, found: set<Address>)
    requires frontier.WellFormed()
    ensures found == Found(tracking, frontier.position)
    ensures ommers == ommers0 + Digests(hs, frontier, Siblings(found))
  {
    ommers, found := ommers0, {};
    var todo := tracking;
    ghost var done: set<Address> := {};
    while todo != {}
      invariant done + todo == tracking && done !! todo
      invariant found == Found(done, frontier.position)
      invariant ommers == ommers0 + Digests(hs, frontier, Siblings(found))
      decreases |todo|
    {
      var address :| address in todo;
      FoundAdd(done, address, frontier.position);
      todo, done := todo - {address}, done + {address};
      if IsCompleteSubtree(frontier.position, address.level) {
        DigestsAdd(hs, frontier, found, address);
        var digest := FrontierRoot(hs, frontier, Some(address.level));
        UpdateSum(ommers0, Digests(hs, frontier, Siblings(found)), address.Sibling(), digest);
        ommers := ommers[address.Sibling() := digest];
        found := found + {address};
      }
    }
    assert done == tracking;
  }

  /** Second loop of `MerkleBridge::append`: every found address is replaced by its next incomplete
      parent. The source's assertion that the parent is not an ommer never fails. */
  method MoveTracking<H>(found: set<Address>, tracking0: set<Address>, ommers: map<Address, H>)
    returns (tracking: set<Address>)
    requires found <= tracking0 && NextParents(found) !! found
    requires forall a | a in ommers :: a.IsRightChild()
    requires forall a | a in found :: a.IsLeftChild()
    ensures tracking == tracking0 - found + NextParents(found)
  {
    tracking := tracking0;
    var todo := found;
    while todo != {}
      invariant todo <= found
      invariant tracking == tracking0 - (found - todo) + NextParents(found - todo)
      decreases |todo|
    {
      var address :| address in todo;
      ghost var done := found - todo;
      assert NextParents(done) <= NextParents(found);
      var parent := NextIncompleteParent(address);
      CurrentIncompleteIsLeft(Address(address.level, address.index + 1));
      assert parent !in ommers;
      tracking := tracking - {address} + {parent};
      todo := todo - {address};
      assert found - todo == done + {address};
      assert NextParents(done + {address}) == NextParents(done) + {parent};
    }
    assert found - todo == found;
  }

  lemma {:induction false} CurrentIncompleteIsLeft(addr: Address)
    ensures CurrentIncomplete(addr).IsLeftChild()
    decreases addr.index
  {
    if addr.IsRightChild() { CurrentIncompleteIsLeft(addr.Parent()); }
  }

  /** `MerkleBridge::append` */
  method AppendTo<H>(hs: Hashable<H>, b: MerkleBridge<H>, value: H) returns (r: MerkleBridge<H>)
    requires b.frontier.WellFormed()
    requires TrackingOk(b.tracking, b.Position() + 1)
    requires forall a | a in b.ommers :: a.IsRightChild()
    ensures r == Appended(hs, b, value)
  {
    TrackingKept(b.tracking, b.Position() + 1);
    var frontier := AppendLeaf(hs, b.frontier, value);
    var ommers, found := StoreCompleted(hs, frontier, b.tracking, b.ommers);
    var tracking := MoveTracking(found, b.tracking, ommers);
    r := MerkleBridge(b.priorPosition, tracking, ommers, frontier);
  }

  // ---------- Invariant ----------

  /** The bridge covers the leaves from `n0` to `n` of the history: its frontier is the frontier after
      `n` leaves, and every ommer is the true hash of a right child completed in that period. */
  ghost predicate BridgeOk<H>(hs: Hashable<H>, leaves: seq<H>, n0: nat, n: nat, b: MerkleBridge<H>)
  {
    && 0 < n <= |leaves| && n0 <= n
    && b.frontier == FrontierOf(hs, leaves[..n])
    && b.priorPosition == (if n0 == 0 then None else Some(n0 - 1))
    && TrackingOk(b.tracking, n)
    && forall a | a in b.ommers ::
      a.IsRightChild() && a.RangeEnd() <= n && b.ommers[a] == Root(hs, leaves, a.level, a.index)
  }

  /** The address that still misses its sibling on the path of the leaf at `m` is tracked. */
  ghost predicate Tracks(tracking: set<Address>, m: nat, n: nat, depth: nat)
  {
    forall k | 0 <= k < depth && Above(k, m) % 2 == 0 && End(k, Above(k, m)) <= n < End(k, Above(k, m) + 1)
      :: Address(k, Above(k, m)) in tracking
  }

  /** Every right sibling on the path of the leaf at `m` that completes in the period is held. */
  ghost predicate Holds<H>(ommers: map<Address, H>, m: nat, n0: nat, n: nat, depth: nat)
  {
    forall k | 0 <= k < depth && Above(k, m) % 2 == 0 && n0 < End(k, Above(k, m) + 1) <= n
      :: Address(k, Above(k, m) + 1) in ommers
  }

  lemma BridgeOkExtends<H>(hs: Hashable<H>, leaves: seq<H>, value: H, n0: nat, n: nat, b: MerkleBridge<H>)
    requires BridgeOk(hs, leaves, n0, n, b)
    ensures BridgeOk(hs, leaves + [value], n0, n, b)
  {
    var longer := leaves + [value];
    assert longer[..n] == leaves[..n];
    forall a | a in b.ommers ensures b.ommers[a] == Root(hs, longer, a.level, a.index) {
      RootAgree(hs, leaves, longer, a.level, a.index);
    }
  }

  lemma BridgeOkTruncates<H>(hs: Hashable<H>, leaves: seq<H>, len: nat, n0: nat, n: nat, b: MerkleBridge<H>)
    requires BridgeOk(hs, leaves, n0, n, b) && n <= len <= |leaves|
    ensures BridgeOk(hs, leaves[..len], n0, n, b)
  {
    assert leaves[..len][..n] == leaves[..n];
    forall a | a in b.ommers ensures b.ommers[a] == Root(hs, leaves[..len], a.level, a.index) {
      RootPrefix(hs, leaves, len, a.level, a.index);
    }
  }

  lemma NewBridgeOk<H>(hs: Hashable<H>, value: H)
    ensures BridgeOk(hs, [value], 0, 1, NewBridge(value))
  {
    assert [value][..1] == [value];
  }

  /** The digest stored for a completed sibling is that sibling's true hash. */
  lemma DigestCorrect<H>(hs: Hashable<H>, leaves: seq<H>, tracking: set<Address>, a: Address)
    requires |leaves| > 0 && TrackingOk(tracking, |leaves| - 1)
    requires a in Siblings(Found(tracking, |leaves| - 1))
    ensures FrontierOf(hs, leaves).WellFormed()
    ensures a.IsRightChild() && a.RangeEnd() == |leaves|
    ensures FrontierRoot(hs, FrontierOf(hs, leaves), Some(a.level)) == Root(hs, leaves, a.level, a.index)
  {
    hide FrontierRoot, Root;
    var n := |leaves| - 1;
    var t :| t in Found(tracking, n) && t.Sibling() == a;
    FoundIff(t, n);
    FrontierRootCorrect(hs, leaves, a.level);
  }

  /** Appending a leaf stores exactly the true root of each sibling it completes. */
  lemma AppendedOk<H>(hs: Hashable<H>, leaves: seq<H>, n0: nat, b: MerkleBridge<H>, value: H)
    requires BridgeOk(hs, leaves, n0, |leaves|, b)
    ensures b.frontier.WellFormed()
    ensures BridgeOk(hs, leaves + [value], n0, |leaves| + 1, Appended(hs, b, value))
  {
    var n, longer := |leaves|, leaves + [value];
    assert leaves[..n] == leaves && longer[..n + 1] == longer;
    PushedCorrect(hs, leaves, value);
    TrackingKept(b.tracking, n);
    var r := Appended(hs, b, value);
    forall a | a in r.ommers
      ensures a.IsRightChild() && a.RangeEnd() <= n + 1 && r.ommers[a] == Root(hs, longer, a.level, a.index)
    {
      if a in Siblings(Found(b.tracking, n)) {
        DigestCorrect(hs, longer, b.tracking, a);
      } else {
        assert a in b.ommers && r.ommers[a] == b.ommers[a];
        RootAgree(hs, leaves, longer, a.level, a.index);
      }
    }
  }

  /** Some ancestor of an earlier leaf is always waiting for its sibling. */
  lemma {:induction false} WaitingLevel(m: nat, n: nat, from: nat) returns (k: nat)
    requires End(from, Above(from, m)) <= n
    ensures k >= from && TrackOk(Address(k, Above(k, m)), n)
    decreases Above(from, m), if n > from then n - from else 0
  {
    var index := Above(from, m);
    if index % 2 == 0 && n < End(from, index + 1) {
      k := from;
    } else {
      var parent := index / 2;
      assert Above(from + 1, m) == parent;
      assert End(from + 1, parent) == Start(from, 2 * parent + 2);
      if index == 0 {
        StartZero(from);
        StartSum(from, 1);
        assert End(from, 1) > from;
      }
      k := WaitingLevel(m, n, from + 1);
    }
  }

  /** Levels of one leaf's path that wait for a sibling are unique. */
  lemma WaitingUnique(m: nat, n: nat, j: nat, k: nat)
    requires TrackOk(Address(j, Above(j, m)), n) && TrackOk(Address(k, Above(k, m)), n)
    ensures j == k
  {
    if j < k { PathEnds(m, j, k); }
    if k < j { PathEnds(m, k, j); }
  }

  /** One leaf later, nothing that completed on the path of the leaf at `m` is missing. */
  lemma AppendedHolds<H>(hs: Hashable<H>, n: nat, n0: nat, b: MerkleBridge<H>, value: H, m: nat, depth: nat)
    requires b.frontier.WellFormed() && b.Position() + 1 == n
    requires Tracks(b.tracking, m, n, depth) && Holds(b.ommers, m, n0, n, depth)
    ensures Holds(Appended(hs, b, value).ommers, m, n0, n + 1, depth)
  {
    forall k | 0 <= k < depth && Above(k, m) % 2 == 0 && n0 < End(k, Above(k, m) + 1) <= n + 1
      ensures Address(k, Above(k, m) + 1) in Appended(hs, b, value).ommers
    {
      if End(k, Above(k, m) + 1) == n + 1 {
        var a := Address(k, Above(k, m));
        StartMono(k, a.index + 1, a.index + 2);
        FoundIff(a, n);
        assert a in Found(b.tracking, n) && a.Sibling() in Siblings(Found(b.tracking, n));
      }
    }
  }

  /** One leaf later, the address waiting on the path of the leaf at `m` is still tracked. */
  lemma AppendedTracks<H>(hs: Hashable<H>, n: nat, b: MerkleBridge<H>, value: H, m: nat, depth: nat)
    requires b.frontier.WellFormed() && b.Position() + 1 == n && m < n
    requires Tracks(b.tracking, m, n, depth)
    ensures Tracks(Appended(hs, b, value).tracking, m, n + 1, depth)
  {
    var w := WaitingLevel(m, n, 0);
    var wait, found := Address(w, Above(w, m)), Found(b.tracking, n);
    FoundIff(wait, n);
    forall k | 0 <= k < depth && Above(k, m) % 2 == 0 && End(k, Above(k, m)) <= n + 1 < End(k, Above(k, m) + 1)
      ensures Address(k, Above(k, m)) in Appended(hs, b, value).tracking
    {
      var a := Address(k, Above(k, m));
      if a.RangeEnd() <= n {
        FoundIff(a, n);
      } else {
        TrackingMovesTo(m, n, w, k);
        assert wait in found && NextIncompleteParent(wait) in NextParents(found);
      }
    }
  }

  /** If the level waiting after `n` leaves is not the one waiting after `n + 1`, then its sibling has
      just completed and the new level is its next incomplete parent. */
  lemma TrackingMovesTo(m: nat, n: nat, w: nat, k: nat)
    requires TrackOk(Address(w, Above(w, m)), n)
    requires Above(k, m) % 2 == 0 && End(k, Above(k, m)) == n + 1
    ensures w < k && Address(w, Above(w, m)).Sibling().RangeEnd() == n + 1
    ensures NextIncompleteParent(Address(w, Above(w, m))) == Address(k, Above(k, m))
  {
    var wait := Address(w, Above(w, m));
    if k < w { PathEnds(m, k, w); }
    PathEnds(m, w, k);
    NextParentOk(wait, n, m);
    var p := NextIncompleteParent(wait);
    StartMono(k, Above(k, m) + 1, Above(k, m) + 2);
    WaitingUnique(m, n + 1, p.level, k);
  }

  /** A bridge begun with tracking on waits for the right sibling on its first leaf's path. */
  lemma TrackCurrentLeafCovers<H>(hs: Hashable<H>, leaves: seq<H>, n0: nat, n: nat, b: MerkleBridge<H>, depth: nat)
    requires BridgeOk(hs, leaves, n0, n, b)
    ensures BridgeOk(hs, leaves, n0, n, b.TrackCurrentLeaf())
    ensures Tracks(b.TrackCurrentLeaf().tracking, n - 1, n, depth)
  {
    var m := n - 1;
    var c := CurrentIncomplete(Address(0, m));
    CurrentIncompleteRange(Address(0, m), m);
    StartMono(c.level, c.index + 1, c.index + 2);
    forall k | 0 <= k < depth && Above(k, m) % 2 == 0 && End(k, Above(k, m)) <= n < End(k, Above(k, m) + 1)
      ensures Address(k, Above(k, m)) == c
    {
      WaitingUnique(m, n, k, c.level);
    }
  }

  /** A node contains another exactly if it lies on the way up from the first leaf of that. */
  lemma AboveFirst(a: Address, b: Address)
    requires b.level <= a.level
    ensures a.Contains(b) <==> a.index == Above(a.level, b.RangeStart())
  {
    SomePosition(b);
    ClimbAbove(b.RangeStart(), b.level, a.level);
  }

  /** Where a tracked address goes with the next leaf. */
  lemma TrackedMoves(t: Address, n: nat)
    requires TrackOk(t, n)
    ensures var now := if IsCompleteSubtree(n, t.level) then NextIncompleteParent(t) else t;
            TrackOk(now, n + 1) && now.Contains(t)
  {
    FoundIff(t, n);
    SomePosition(t);
    if IsCompleteSubtree(n, t.level) {
      NextParentOk(t, n, t.RangeStart());
      AboveFirst(NextIncompleteParent(t), t);
    }
  }

  /** One leaf later exactly the trackable nodes at or above the tracked ones are tracked. */
  lemma AppendedTracking<H>(hs: Hashable<H>, n: nat, b: MerkleBridge<H>, value: H, a: Address)
    requires b.frontier.WellFormed() && b.Position() + 1 == n && TrackingOk(b.tracking, n)
    ensures a in Appended(hs, b, value).tracking <==>
      TrackOk(a, n + 1) && exists t | t in b.tracking :: a.Contains(t)
  {
    hide TrackOk, Climb, NextIncompleteParent, IsCompleteSubtree;
    var r, found := Appended(hs, b, value), Found(b.tracking, n);
    TrackingKept(b.tracking, n);
    if a in r.tracking {
      if a in b.tracking - found {
        SelfContained(a);
      } else {
        var t :| t in found && NextIncompleteParent(t) == a;
        TrackedMoves(t, n);
      }
    }
    if TrackOk(a, n + 1) && exists t | t in b.tracking :: a.Contains(t) {
      var t :| t in b.tracking && a.Contains(t);
      TrackedOnce(a, t, n);
      assert t in found ==> a in NextParents(found);
    }
  }

  lemma SelfContained(a: Address)
    ensures a.Contains(a)
  {
  }

  lemma TrackedOnce(a: Address, t: Address, n: nat)
    requires TrackOk(t, n) && TrackOk(a, n + 1) && a.Contains(t)
    ensures a == if IsCompleteSubtree(n, t.level) then NextIncompleteParent(t) else t
  {
    var now := if IsCompleteSubtree(n, t.level) then NextIncompleteParent(t) else t;
    TrackedMoves(t, n);
    AboveFirst(a, t);
    AboveFirst(now, t);
    WaitingUnique(t.RangeStart(), n + 1, a.level, now.level);
  }

  /** And exactly the hashes of their siblings that the leaf completes are held in addition. */
  lemma AppendedOmmers<H>(hs: Hashable<H>, n: nat, b: MerkleBridge<H>, value: H, a: Address)
    requires b.frontier.WellFormed() && b.Position() + 1 == n && TrackingOk(b.tracking, n)
    ensures a in Appended(hs, b, value).ommers <==>
      a in b.ommers || (a.Sibling() in b.tracking && a.IsRightChild() && a.RangeEnd() == n + 1)
  {
    var found := Found(b.tracking, n);
    assert a.Sibling().Sibling() == a;
    if a.Sibling() in b.tracking && a.IsRightChild() { FoundIff(a.Sibling(), n); }
    if a in Siblings(found) {
      var t :| t in found && t.Sibling() == a;
      FoundIff(t, n);
    }
  }

  /** The node that starts to be tracked for the leaf before `n`. */
  ghost predicate AboveTip(a: Address, n: nat)
    requires n > 0
  {
    TrackOk(a, n) && a.Contains(Address(0, n - 1))
  }

  lemma TipTracked(a: Address, n: nat)
    requires n > 0
    ensures AboveTip(a, n) <==> a == CurrentIncomplete(Address(0, n - 1))
  {
    var tip, now := Address(0, n - 1), CurrentIncomplete(Address(0, n - 1));
    CurrentIncompleteRange(tip, n - 1);
    StartMono(now.level, now.index + 1, now.index + 2);
    AboveFirst(now, tip);
    if AboveTip(a, n) {
      AboveFirst(a, tip);
      WaitingUnique(n - 1, n, a.level, now.level);
    }
  }

  lemma SuccessorOk<H>(hs: Hashable<H>, leaves: seq<H>, n0: nat, n: nat, b: MerkleBridge<H>, track: bool, depth: nat)
    requires BridgeOk(hs, leaves, n0, n, b)
    ensures BridgeOk(hs, leaves, n, n, b.Successor(track))
    ensures forall m | Tracks(b.tracking, m, n, depth) :: Tracks(b.Successor(track).tracking, m, n, depth)
    ensures track ==> Tracks(b.Successor(track).tracking, n - 1, n, depth)
    ensures forall a :: a in b.Successor(track).tracking <==> a in b.tracking || (track && AboveTip(a, n))
  {
    forall a ensures AboveTip(a, n) <==> a == CurrentIncomplete(Address(0, n - 1)) { TipTracked(a, n); }
    if track { TrackCurrentLeafCovers(hs, leaves, n, n, b.Successor(false), depth); }
  }

  // ---------- Fuse ----------

  /** Continuous bridges fuse, and the result covers both periods. */
  lemma FuseOk<H>(hs: Hashable<H>, leaves: seq<H>, n0: nat, n1: nat, n2: nat, a: MerkleBridge<H>, b: MerkleBridge<H>)
    requires BridgeOk(hs, leaves, n0, n1, a) && BridgeOk(hs, leaves, n1, n2, b)
    ensures a.Fuse(b).Ok? && BridgeOk(hs, leaves, n0, n2, a.Fuse(b).value)
    ensures forall m, depth | Holds(a.ommers, m, n0, n1, depth) && Holds(b.ommers, m, n1, n2, depth)
              :: Holds(a.Fuse(b).value.ommers, m, n0, n2, depth)
  {
  }

  /** Fusing is associative on continuous bridges. */
  lemma FuseAssociative<H>(a: MerkleBridge<H>, b: MerkleBridge<H>, c: MerkleBridge<H>)
    requires a.ContinuityProblem(b).None? && b.ContinuityProblem(c).None?
    ensures a.Fuse(b).Ok? && b.Fuse(c).Ok?
    ensures a.Fuse(b).value.Fuse(c).Ok?
    ensures a.Fuse(b).value.Fuse(c) == a.Fuse(b.Fuse(c).value)
  {
    assert a.ommers + b.ommers + c.ommers == a.ommers + (b.ommers + c.ommers);
  }

  function AppendedAll<H>(hs: Hashable<H>, b: MerkleBridge<H>, values: seq<H>): (r: MerkleBridge<H>)
    requires b.frontier.WellFormed()
    ensures r.frontier.WellFormed()
    decreases |values|
  {
    if values == [] then b else AppendedAll(hs, Appended(hs, b, values[0]), values[1..])
  }

  /** Fusing with a successor that saw some leaves is the same as appending those leaves directly. */
  lemma FuseIsAppend<H>(hs: Hashable<H>, b: MerkleBridge<H>, values: seq<H>)
    requires b.frontier.WellFormed()
    ensures b.Fuse(AppendedAll(hs, b.Successor(false), values)) == Ok(AppendedAll(hs, b, values))
  {
    assert b.ommers + map[] == b.ommers;
    FuseIsAppendFrom(hs, b, b.Successor(false), b, values);
  }

  lemma {:induction false} FuseIsAppendFrom<H>(hs: Hashable<H>, first: MerkleBridge<H>, next: MerkleBridge<H>,
                                               direct: MerkleBridge<H>, values: seq<H>)
    requires next.frontier.WellFormed() && first.Fuse(next) == Ok(direct)
    ensures first.Fuse(AppendedAll(hs, next, values)) == Ok(AppendedAll(hs, direct, values))
    decreases |values|
  {
    if values != [] {
      var next', direct' := Appended(hs, next, values[0]), Appended(hs, direct, values[0]);
      assert first.ommers + next'.ommers == direct'.ommers;
      FuseIsAppendFrom(hs, first, next', direct', values[1..]);
    }
  }

  // ---------- Witness ----------

  /** Where a witness takes the node at `addr` from: beyond the tip it is empty, above the tip it comes
      from the frontier, and otherwise it must have been stored. */
  function Complement<H>(hs: Hashable<H>, b: MerkleBridge<H>, addr: Address): Option<H>
    requires b.frontier.WellFormed()
  {
    if b.Position() < addr.RangeStart() then Some(EmptyRoot(hs, addr.level))
    else if addr.ContainsPosition(b.Position()) then Some(FrontierRoot(hs, b.frontier, Some(addr.level)))
    else if addr in b.ommers then Some(b.ommers[addr])
    else None
  }

  /** `MerkleBridge::witness` */
  function BridgeWitness<H>(hs: Hashable<H>, b: MerkleBridge<H>, depth: nat, priorFrontier: NonEmptyFrontier<H>)
      : Result<seq<H>, Address>
    requires b.frontier.WellFormed() && priorFrontier.WellFormed()
    requires b.priorPosition == Some(priorFrontier.position)
  {
    FrontierWitness(priorFrontier, depth, addr => Complement(hs, b, addr))
  }

  lemma ComplementCorrect<H>(hs: Hashable<H>, leaves: seq<H>, n0: nat, n: nat, b: MerkleBridge<H>, addr: Address)
    requires BridgeOk(hs, leaves, n0, n, b)
    ensures b.frontier.WellFormed()
    ensures var answer := Complement(hs, b, addr);
            && (answer.Some? ==> answer.value == Root(hs, leaves[..n], addr.level, addr.index))
            && (addr.RangeEnd() <= n && addr in b.ommers ==> answer.Some?)
            && (addr.RangeEnd() > n ==> answer.Some?)
  {
    FrontierRootCorrect(hs, leaves[..n], addr.level);
    if n - 1 < addr.RangeStart() {
      RootEmpty(hs, leaves[..n], addr.level, addr.index);
    } else if addr.ContainsPosition(n - 1) {
      AboveUnique(addr.level, n - 1, addr.index);
    } else if addr in b.ommers {
      RootPrefix(hs, leaves, n, addr.level, addr.index);
    }
  }

  /** A bridge from the leaf at `n0 - 1` to `n` gives that leaf's witness in the tree of `n` leaves; it
      can fail only if an ommer is missing. */
  lemma BridgeWitnessCorrect<H>(hs: Hashable<H>, leaves: seq<H>, n0: nat, n: nat, b: MerkleBridge<H>, depth: nat)
    requires BridgeOk(hs, leaves, n0, n, b) && n0 > 0
    ensures b.frontier.WellFormed() && FrontierOf(hs, leaves[..n0]).WellFormed()
    ensures var w := BridgeWitness(hs, b, depth, FrontierOf(hs, leaves[..n0]));
            && (w.Ok? ==> w.value == RefPath(hs, leaves[..n], n0 - 1, depth))
            && (w.Ok? ==>
                PathRoot(hs, leaves[n0 - 1], w.value, n0 - 1) == Root(hs, leaves[..n], depth, Above(depth, n0 - 1)))
            && (Holds(b.ommers, n0 - 1, n0, n, depth) ==> w.Ok?)
  {
    hide FrontierWitness, FrontierRoot, Root, OmmersAbove, PathRoot;
    var m := n0 - 1;
    FrontierRootCorrect(hs, leaves[..n], 0);
    var complement := (addr: Address) => Complement(hs, b, addr);
    forall k | 0 <= k < depth && Above(k, m) % 2 == 0
      ensures var answer := complement(Address(k, Above(k, m) + 1));
              && (answer.Some? ==> answer.value == Root(hs, leaves[..n], k, Above(k, m) + 1))
              && (Holds(b.ommers, m, n0, n, depth) ==> answer.Some?)
    {
      var addr := Address(k, Above(k, m) + 1);
      ComplementCorrect(hs, leaves, n0, n, b, addr);
      AboveRange(k, m);
      StartMono(k, Above(k, m) + 1, Above(k, m) + 2);
    }
    assert Sound(hs, leaves[..n], m, depth, complement);
    FrontierWitnessCorrect(hs, leaves[..n0], leaves[..n], depth, complement);
  }
}
