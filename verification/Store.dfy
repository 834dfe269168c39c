/** `shardtree/src/store.rs` and `shardtree/src/store/memory.rs`: what a shard store holds, and the
    store that keeps it in memory. Checkpoint identifiers are integers. */
module Stores {

  import opened Basics
  import opened Merkle
  import opened PrunableTrees

  datatype TreeState = Empty | AtPosition(position: nat)

  datatype Checkpoint = Checkpoint(treeState: TreeState, marksRemoved: set<nat>)
  {
    function Position(): Option<nat>
    {
      match treeState case Empty => None case AtPosition(p) => Some(p)
    }
  }

  /** The checkpoint that stands for the given leaves, before any mark is removed as of it. */
  function CheckpointOf<H>(leaves: seq<H>): Checkpoint
  {
    Checkpoint(if |leaves| == 0 then TreeState.Empty else AtPosition(|leaves| - 1), {})
  }

  /** The checkpoints, one of which lists a position as a mark to remove. */
  function WithMarkRemoved(checkpoints: map<int, Checkpoint>, id: int, position: nat): map<int, Checkpoint>
    requires id in checkpoints
  {
    checkpoints[id := checkpoints[id].(marksRemoved := checkpoints[id].marksRemoved + {position})]
  }

  // ---------- Identifiers in order ----------

  predicate IsLeast(s: set<int>, m: int)
  {
    m in s && forall x | x in s :: m <= x
  }

  lemma Inhabited(s: set<int>)
    ensures s == {} || exists x :: x in s
  {
    if forall x :: x !in s { assert s == {}; }
  }

  lemma LeastWith(s: set<int>, x: int, m: int)
    requires x in s && IsLeast(s - {x}, m)
    ensures IsLeast(s, if x < m then x else m)
  {
    assert forall y | y in s :: y == x || y in s - {x};
  }

  lemma {:induction false} HasLeast(s: set<int>)
    requires s != {}
    ensures exists m :: IsLeast(s, m)
  {
    Inhabited(s);
    var x :| x in s;
    if s - {x} == {} {
      assert forall y | y in s :: y == x || y in s - {x};
      assert IsLeast(s, x);
    } else {
      HasLeast(s - {x});
      var m :| IsLeast(s - {x}, m);
      LeastWith(s, x, m);
    }
  }

  function Least(s: set<int>): (m: int)
    requires s != {}
    ensures m in s && forall x | x in s :: m <= x
  {
    HasLeast(s);
    var m :| m in s && IsLeast(s, m);
    m
  }

  ghost predicate Ascending(ids: seq<int>)
  {
    forall i, j | 0 <= i < j < |ids| :: ids[i] < ids[j]
  }

  /** The elements of a set in increasing order: the iteration order of a `BTreeMap`. */
  function InOrder(s: set<int>): (ids: seq<int>)
    ensures forall x :: x in ids <==> x in s
    ensures |ids| == |s|
    ensures Ascending(ids)
  {
    if s == {} then []
    else
      var m := Least(s);
      var rest := InOrder(s - {m});
      LeastFirst(s, m, rest);
      [m] + rest
  }

  lemma LeastFirst(s: set<int>, m: int, rest: seq<int>)
    requires IsLeast(s, m) && Ascending(rest) && |rest| == |s - {m}| && forall x :: x in rest <==> x in s - {m}
    ensures Ascending([m] + rest) && |[m] + rest| == |s| && forall x :: x in [m] + rest <==> x in s
  {
    assert forall i | 0 <= i < |rest| :: rest[i] in rest;
    assert s == (s - {m}) + {m};
  }

  /** The identifier that has exactly so many greater ones. */
  function IdAtDepth(s: set<int>, depth: nat): (id: Option<int>)
    ensures id.Some? <==> depth < |s|
    ensures id.Some? ==> id.value in s
  {
    var ids := InOrder(s);
    if depth < |ids| then
      assert ids[|ids| - 1 - depth] in ids;
      Some(ids[|ids| - 1 - depth])
    else None
  }

  // ---------- Contents ----------

  datatype Store<H> = Store(shards: seq<Located<H>>, checkpoints: map<int, Checkpoint>, cap: Tree<H>)
  {
    /** Every shard sits at its own index. */
    ghost predicate Indexed()
    {
      forall i | 0 <= i < |shards| :: shards[i].addr.index == i
    }

    function PutShard(shard: Located<H>): Store<H>
    {
      this.(shards := Padded(shards, shard.addr)[shard.addr.index := shard])
    }

    function TruncateShards(count: nat): Store<H> { this.(shards := Take(shards, count)) }

    function PutCap(newCap: Tree<H>): Store<H> { this.(cap := newCap) }

    function AddCheckpoint(id: int, checkpoint: Checkpoint): Store<H> {
      this.(checkpoints := checkpoints[id := checkpoint])
    }

    /** `update_checkpoint_with` */
    function UpdateCheckpoint(id: int, update: Checkpoint -> Checkpoint): Store<H>
    {
      if id in checkpoints then this.(checkpoints := checkpoints[id := update(checkpoints[id])]) else this
    }

    function RemoveCheckpoint(id: int): Store<H> { this.(checkpoints := checkpoints - {id}) }

    /** Drops every later checkpoint, and forgets which marks were removed since this one. */
    function TruncateCheckpointsRetaining(id: int): Store<H>
    {
      this.(checkpoints := map i | i in checkpoints && i <= id ::
        if i == id then checkpoints[i].(marksRemoved := {}) else checkpoints[i])
    }
  }

  function EmptyStore<H>(): Store<H> { Store([], map[], Nil) }

  /** The shards extended by empty ones so that the given address is among them. */
  function Padded<H>(shards: seq<Located<H>>, addr: Address): (r: seq<Located<H>>)
    ensures |r| > addr.index && shards <= r
    ensures |r| == if |shards| > addr.index then |shards| else addr.index + 1
    ensures forall i | |shards| <= i < |r| :: r[i] == Located(Address(addr.level, i), Nil)
    decreases addr.index + 1 - |shards|
  {
    if |shards| > addr.index then shards else Padded(shards + [Located(Address(addr.level, |shards|), Nil)], addr)
  }

  // ---------- The store in memory ----------

  /** `MemoryShardStore` */
  class MemoryShardStore<H(==)>
  {
    var shards: seq<Located<H>>
    var checkpoints: map<int, Checkpoint>
    var cap: Tree<H>

    ghost function Contents(): Store<H>
      reads this
    {
      Store(shards, checkpoints, cap)
    }

    ghost predicate Valid()
      reads this
    {
      Contents().Indexed()
    }

    constructor ()
      ensures Valid() && Contents() == EmptyStore()
    {
      shards, checkpoints, cap := [], map[], Nil;
    }

    method GetShard(addr: Address) returns (shard: Option<Located<H>>)
      requires Valid()
      ensures shard == if addr.index < |shards| then Some(shards[addr.index]) else None
      ensures shard.Some? ==> shard.value.addr.index == addr.index
    {
      shard := if addr.index < |shards| then Some(shards[addr.index]) else None;
    }

    method LastShard() returns (shard: Option<Located<H>>)
      requires Valid()
      ensures shard == if shards == [] then None else Some(shards[|shards| - 1])
      ensures shard.Some? ==> shard.value.addr.index == |shards| - 1
    {
      shard := if shards == [] then None else Some(shards[|shards| - 1]);
    }

    /** Pads with empty shards, from one past the last shard's index, then stores. */
    method PutShard(shard: Located<H>)
      requires Valid()
      modifies this
      ensures Valid() && Contents() == old(Contents()).PutShard(shard)
      ensures shard.addr.index < |shards| && shards[shard.addr.index] == shard
      ensures forall i | 0 <= i < |old(shards)| && i != shard.addr.index :: shards[i] == old(shards)[i]
    {
      var index := if shards == [] then 0 else shards[|shards| - 1].addr.index + 1;
      while index <= shard.addr.index
        invariant index == |shards| && Valid()
        invariant old(shards) <= shards && checkpoints == old(checkpoints) && cap == old(cap)
        invariant Padded(shards, shard.addr) == Padded(old(shards), shard.addr)
        invariant |shards| <= shard.addr.index + 1 || shards == old(shards)
      {
        shards := shards + [Located(Address(shard.addr.level, index), Nil)];
        index := index + 1;
      }
      shards := shards[shard.addr.index := shard];
    }

    method TruncateShards(count: nat)
      requires Valid()
      modifies this
      ensures Valid() && Contents() == old(Contents()).TruncateShards(count)
    {
      shards := Take(shards, count);
    }

    method PutCap(newCap: Tree<H>)
      requires Valid()
      modifies this
      ensures Valid() && Contents() == old(Contents()).PutCap(newCap)
    {
      cap := newCap;
    }

    method AddCheckpoint(id: int, checkpoint: Checkpoint)
      requires Valid()
      modifies this
      ensures Valid() && Contents() == old(Contents()).AddCheckpoint(id, checkpoint)
    {
      checkpoints := checkpoints[id := checkpoint];
    }

    method UpdateCheckpoint(id: int, update: Checkpoint -> Checkpoint) returns (found: bool)
      requires Valid()
      modifies this
      ensures Valid() && found == (id in old(checkpoints)) && Contents() == old(Contents()).UpdateCheckpoint(id, update)
    {
      found := id in checkpoints;
      if found { checkpoints := checkpoints[id := update(checkpoints[id])]; }
    }

    method RemoveCheckpoint(id: int)
      requires Valid()
      modifies this
      ensures Valid() && Contents() == old(Contents()).RemoveCheckpoint(id)
    {
      checkpoints := checkpoints - {id};
    }

    /** Splits the map at the identifier, and puts the retained checkpoint back without its marks. */
    method TruncateCheckpointsRetaining(id: int)
      requires Valid()
      modifies this
      ensures Valid() && Contents() == old(Contents()).TruncateCheckpointsRetaining(id)
    {
      var rest := map i | i in checkpoints && i >= id :: checkpoints[i];
      checkpoints := map i | i in checkpoints && i < id :: checkpoints[i];
      if id in rest { checkpoints := checkpoints[id := rest[id].(marksRemoved := {})]; }
      assert Contents().checkpoints == old(Contents()).TruncateCheckpointsRetaining(id).checkpoints;
    }

    method MinCheckpointId() returns (id: Option<int>)
      ensures id.None? <==> checkpoints == map[]
      ensures id.Some? ==> id.value in checkpoints && forall i | i in checkpoints :: id.value <= i
    {
      if checkpoints.Keys == {} {
        id := None;
      } else {
        var least := Least(checkpoints.Keys);
        forall i | i in checkpoints ensures least <= i { assert i in checkpoints.Keys; }
        id := Some(least);
      }
    }

    /** The checkpoint with so many later ones. */
    method GetCheckpointAtDepth(depth: nat) returns (found: Option<(int, Checkpoint)>)
      ensures var id := IdAtDepth(checkpoints.Keys, depth);
              if id.Some? then id.value in checkpoints && found == Some((id.value, checkpoints[id.value]))
                else found == None
    {
      var id := IdAtDepth(checkpoints.Keys, depth);
      found := if id.Some? then Some((id.value, checkpoints[id.value])) else None;
    }

    method MaxCheckpointId() returns (id: Option<int>)
      ensures id.None? <==> checkpoints == map[]
      ensures id.Some? ==> id.value in checkpoints && forall i | i in checkpoints :: i <= id.value
    {
      var ids := InOrder(checkpoints.Keys);
      if ids == [] {
        assert checkpoints.Keys == {};
        id := None;
      } else {
        forall i | i in checkpoints ensures i <= ids[|ids| - 1] { assert i in ids; }
        assert ids[|ids| - 1] in ids;
        id := Some(ids[|ids| - 1]);
      }
    }
  }
}
