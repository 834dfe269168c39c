/** `shardtree/src/store/caching.rs`: a write-back cache over a shard store. Most operations touch the
    cache only; the three that remove something are also logged, and replayed when the cache is flushed. */
module CachingStores {

  import opened Basics
  import opened Merkle
  import opened PrunableTrees
  import opened Stores

  // ---------- Operations and the log ----------

  /** The operations by which a client changes a store. */
  datatype StoreOp<H> =
    | PutShardOp(shard: Located<H>)
    | TruncateShardsOp(count: nat)
    | PutCapOp(cap: Tree<H>)
    | AddCheckpointOp(id: int, checkpoint: Checkpoint)
    | UpdateCheckpointOp(id: int, update: Checkpoint -> Checkpoint)
    | RemoveCheckpointOp(id: int)
    | TruncateCheckpointsOp(id: int)

  function Apply<H>(s: Store<H>, op: StoreOp<H>): Store<H>
  {
    match op
    case PutShardOp(shard) => s.PutShard(shard)
    case TruncateShardsOp(count) => s.TruncateShards(count)
    case PutCapOp(cap) => s.PutCap(cap)
    case AddCheckpointOp(id, c) => s.AddCheckpoint(id, c)
    case UpdateCheckpointOp(id, update) => s.UpdateCheckpoint(id, update)
    case RemoveCheckpointOp(id) => s.RemoveCheckpoint(id)
    case TruncateCheckpointsOp(id) => s.TruncateCheckpointsRetaining(id)
  }

  function ApplyAll<H>(s: Store<H>, ops: seq<StoreOp<H>>): Store<H>
  {
    if ops == [] then s else Apply(ApplyAll(s, ops[..|ops| - 1]), ops[|ops| - 1])
  }

  datatype Action = TruncateShards(count: nat) | RemoveCheckpoint(id: int) | TruncateCheckpointsRetaining(id: int)

  function Perform<H>(s: Store<H>, action: Action): Store<H>
  {
    match action
    case TruncateShards(count) => s.TruncateShards(count)
    case RemoveCheckpoint(id) => s.RemoveCheckpoint(id)
    case TruncateCheckpointsRetaining(id) => s.TruncateCheckpointsRetaining(id)
  }

  function Replay<H>(s: Store<H>, actions: seq<Action>): Store<H>
  {
    if actions == [] then s else Perform(Replay(s, actions[..|actions| - 1]), actions[|actions| - 1])
  }

  /** What an operation leaves in the log. */
  function Logged<H>(op: StoreOp<H>): seq<Action>
  {
    match op
    case TruncateShardsOp(count) => [TruncateShards(count)]
    case RemoveCheckpointOp(id) => [RemoveCheckpoint(id)]
    case TruncateCheckpointsOp(id) => [TruncateCheckpointsRetaining(id)]
    case _ => []
  }

  function Log<H>(ops: seq<StoreOp<H>>): seq<Action>
  {
    if ops == [] then [] else Log(ops[..|ops| - 1]) + Logged(ops[|ops| - 1])
  }

  /** No shard and no checkpoint that the other store lacks. */
  ghost predicate Behind<H>(s: Store<H>, other: Store<H>)
  {
    |s.shards| <= |other.shards| && s.checkpoints.Keys <= other.checkpoints.Keys
  }

  /** One operation keeps the log's effect behind the operation's own. */
  lemma BehindStep<H>(replayed: Store<H>, direct: Store<H>, op: StoreOp<H>)
    requires Behind(replayed, direct)
    ensures Logged(op) == [] ==> Behind(replayed, Apply(direct, op))
    ensures Logged(op) != [] ==> Behind(Perform(replayed, Logged(op)[0]), Apply(direct, op))
  {
    if op.TruncateCheckpointsOp? {
      KeysRetained(replayed, op.id);
      KeysRetained(direct, op.id);
    }
  }

  lemma KeysRetained<H>(s: Store<H>, id: int)
    ensures s.TruncateCheckpointsRetaining(id).checkpoints.Keys == set i | i in s.checkpoints.Keys && i <= id
  {
  }

  lemma ReplayOneMore<H>(s: Store<H>, actions: seq<Action>, action: Action)
    ensures Replay(s, actions + [action]) == Perform(Replay(s, actions), action)
  {
    assert (actions + [action])[..|actions|] == actions;
  }

  /** The replayed log never leaves anything that the cache does not overwrite. */
  lemma {:induction false} ReplayStaysBehind<H>(s: Store<H>, ops: seq<StoreOp<H>>)
    ensures Behind(Replay(s, Log(ops)), ApplyAll(s, ops))
  {
    if ops != [] {
      var before, op := ops[..|ops| - 1], ops[|ops| - 1];
      ReplayStaysBehind(s, before);
      BehindStep(Replay(s, Log(before)), ApplyAll(s, before), op);
      assert Log(ops) == Log(before) + Logged(op);
      if Logged(op) == [] { assert Log(ops) == Log(before); } else { ReplayOneMore(s, Log(before), Logged(op)[0]); }
    }
  }

  lemma ApplyOneMore<H>(s: Store<H>, ops: seq<StoreOp<H>>, op: StoreOp<H>)
    ensures ApplyAll(s, ops + [op]) == Apply(ApplyAll(s, ops), op)
    ensures Log(ops + [op]) == Log(ops) + Logged(op)
    ensures Logged(op) == [] ==> Log(ops + [op]) == Log(ops)
  {
    assert (ops + [op])[..|ops|] == ops;
  }

  // ---------- The cache ----------

  /** Copies every shard of one store into another that has no more of them. */
  method WriteShards<H>(from: MemoryShardStore<H>, into: MemoryShardStore<H>)
    requires from != into && from.Valid() && into.Valid() && |into.shards| <= |from.shards|
    modifies into
    ensures into.Valid()
    ensures into.shards == from.shards && into.checkpoints == old(into.checkpoints) && into.cap == old(into.cap)
  {
    var i := 0;
    while i < |from.shards|
      invariant 0 <= i <= |from.shards| && into.Valid()
      invariant i <= |into.shards| <= |from.shards|
      invariant into.shards[..i] == from.shards[..i]
      invariant into.checkpoints == old(into.checkpoints) && into.cap == old(into.cap)
    {
      var shard := from.GetShard(from.shards[i].addr);
      into.PutShard(shard.value);
      i := i + 1;
    }
  }

  /** The first `count` identifiers have been copied, and no other key has appeared. */
  ghost predicate Copied(from: map<int, Checkpoint>, into: map<int, Checkpoint>, ids: seq<int>, count: nat)
  {
    && count <= |ids|
    && into.Keys <= from.Keys
    && (forall j | 0 <= j < count :: ids[j] in from && ids[j] in into && into[ids[j]] == from[ids[j]])
  }

  lemma CopyNext(from: map<int, Checkpoint>, into: map<int, Checkpoint>, ids: seq<int>, count: nat)
    requires Copied(from, into, ids, count) && count < |ids| && ids[count] in from
    ensures Copied(from, into[ids[count] := from[ids[count]]], ids, count + 1)
  {
    var grown := into[ids[count] := from[ids[count]]];
    assert grown.Keys == into.Keys + {ids[count]};
  }

  lemma CopiedAll(from: map<int, Checkpoint>, into: map<int, Checkpoint>)
    requires Copied(from, into, InOrder(from.Keys), |from.Keys|)
    ensures into == from
  {
    var ids := InOrder(from.Keys);
    forall id | id in from ensures id in into && into[id] == from[id] {
      assert id in from.Keys && id in ids;
    }
    assert from.Keys <= into.Keys;
  }

  /** Copies every checkpoint of one store into another that has no others. */
  method WriteCheckpoints<H>(from: MemoryShardStore<H>, into: MemoryShardStore<H>)
    requires from != into && into.Valid() && into.checkpoints.Keys <= from.checkpoints.Keys
    modifies into
    ensures into.Valid()
    ensures into.checkpoints == from.checkpoints && into.shards == old(into.shards) && into.cap == old(into.cap)
  {
    var ids := InOrder(from.checkpoints.Keys);
    var i := 0;
    while i < |ids|
      invariant 0 <= i <= |ids| && into.Valid()
      invariant Copied(from.checkpoints, into.checkpoints, ids, i)
      invariant into.shards == old(into.shards) && into.cap == old(into.cap)
    {
      assert ids[i] in ids && ids[i] in from.checkpoints.Keys;
      CopyNext(from.checkpoints, into.checkpoints, ids, i);
      into.AddCheckpoint(ids[i], from.checkpoints[ids[i]]);
      i := i + 1;
    }
    CopiedAll(from.checkpoints, into.checkpoints);
  }

  /** `CachingShardStore` over a store in memory. */
  class CachingShardStore<H(==)>
  {
    const backend: MemoryShardStore<H>
    const cache: MemoryShardStore<H>
    var deferredActions: seq<Action>
    ghost var ops: seq<StoreOp<H>>

    /** The cache holds what the backend would hold had the operations been applied to it. */
    ghost predicate Valid()
      reads this, backend, cache
    {
      && backend != cache
      && backend.Valid() && cache.Valid()
      && cache.Contents() == ApplyAll(backend.Contents(), ops)
      && deferredActions == Log(ops)
    }

    /** `load` */
    constructor (store: MemoryShardStore<H>)
      requires store.Valid()
      ensures Valid() && backend == store && fresh(cache) && ops == []
      ensures cache.Contents() == store.Contents()
    {
      var copy := new MemoryShardStore();
      WriteShards(store, copy);
      copy.PutCap(store.cap);
      WriteCheckpoints(store, copy);
      backend, cache, deferredActions, ops := store, copy, [], [];
    }

    method PutShard(shard: Located<H>)
      requires Valid()
      modifies this, cache
      ensures Valid() && ops == old(ops) + [PutShardOp(shard)]
    {
      cache.PutShard(shard);
      ApplyOneMore(backend.Contents(), ops, PutShardOp(shard));
      ops := ops + [PutShardOp(shard)];
    }

    method TruncateShards(count: nat)
      requires Valid()
      modifies this, cache
      ensures Valid() && ops == old(ops) + [TruncateShardsOp(count)]
    {
      deferredActions := deferredActions + [Action.TruncateShards(count)];
      cache.TruncateShards(count);
      ApplyOneMore(backend.Contents(), ops, TruncateShardsOp(count));
      ops := ops + [TruncateShardsOp(count)];
    }

    method PutCap(cap: Tree<H>)
      requires Valid()
      modifies this, cache
      ensures Valid() && ops == old(ops) + [PutCapOp(cap)]
    {
      cache.PutCap(cap);
      ApplyOneMore(backend.Contents(), ops, PutCapOp(cap));
      ops := ops + [PutCapOp(cap)];
    }

    method AddCheckpoint(id: int, checkpoint: Checkpoint)
      requires Valid()
      modifies this, cache
      ensures Valid() && ops == old(ops) + [AddCheckpointOp(id, checkpoint)]
    {
      cache.AddCheckpoint(id, checkpoint);
      ApplyOneMore(backend.Contents(), ops, AddCheckpointOp(id, checkpoint));
      ops := ops + [AddCheckpointOp(id, checkpoint)];
    }

    method UpdateCheckpoint(id: int, update: Checkpoint -> Checkpoint) returns (found: bool)
      requires Valid()
      modifies this, cache
      ensures Valid() && ops == old(ops) + [UpdateCheckpointOp(id, update)]
      ensures found == (id in ApplyAll(backend.Contents(), old(ops)).checkpoints)
    {
      found := cache.UpdateCheckpoint(id, update);
      ApplyOneMore(backend.Contents(), ops, UpdateCheckpointOp(id, update));
      ops := ops + [UpdateCheckpointOp(id, update)];
    }

    method RemoveCheckpoint(id: int)
      requires Valid()
      modifies this, cache
      ensures Valid() && ops == old(ops) + [RemoveCheckpointOp(id)]
    {
      deferredActions := deferredActions + [Action.RemoveCheckpoint(id)];
      cache.RemoveCheckpoint(id);
      ApplyOneMore(backend.Contents(), ops, RemoveCheckpointOp(id));
      ops := ops + [RemoveCheckpointOp(id)];
    }

    method TruncateCheckpointsRetaining(id: int)
      requires Valid()
      modifies this, cache
      ensures Valid() && ops == old(ops) + [TruncateCheckpointsOp(id)]
    {
      deferredActions := deferredActions + [Action.TruncateCheckpointsRetaining(id)];
      cache.TruncateCheckpointsRetaining(id);
      ApplyOneMore(backend.Contents(), ops, TruncateCheckpointsOp(id));
      ops := ops + [TruncateCheckpointsOp(id)];
    }

    /** Replays the log on the backend. */
    method ReplayLog()
      requires Valid()
      modifies backend
      ensures backend.Valid() && backend.Contents() == Replay(old(backend.Contents()), deferredActions)
    {
      var i := 0;
      while i < |deferredActions|
        invariant 0 <= i <= |deferredActions| && backend.Valid()
        invariant backend.Contents() == Replay(old(backend.Contents()), deferredActions[..i])
      {
        match deferredActions[i] {
          case TruncateShards(count) => backend.TruncateShards(count);
          case RemoveCheckpoint(id) => backend.RemoveCheckpoint(id);
          case TruncateCheckpointsRetaining(id) => backend.TruncateCheckpointsRetaining(id);
        }
        assert deferredActions[..i + 1] == deferredActions[..i] + [deferredActions[i]];
        ReplayOneMore(old(backend.Contents()), deferredActions[..i], deferredActions[i]);
        i := i + 1;
      }
      assert deferredActions[..i] == deferredActions;
    }

    /** `flush`: leaves the backend as if every operation had been applied to it directly. */
    method Flush() returns (store: MemoryShardStore<H>)
      requires Valid()
      modifies this, backend
      ensures store == backend && store.Valid()
      ensures store.Contents() == ApplyAll(old(backend.Contents()), old(ops))
    {
      ReplayStaysBehind(backend.Contents(), ops);
      ReplayLog();
      deferredActions := [];
      WriteShards(cache, backend);
      backend.PutCap(cache.cap);
      WriteCheckpoints(cache, backend);
      store := backend;
    }
  }

  /** Passes one operation to the cache. */
  method Submit<H>(caching: CachingShardStore<H>, op: StoreOp<H>)
    requires caching.Valid()
    modifies caching, caching.cache
    ensures caching.Valid() && caching.ops == old(caching.ops) + [op]
  {
    match op {
      case PutShardOp(shard) => caching.PutShard(shard);
      case TruncateShardsOp(count) => caching.TruncateShards(count);
      case PutCapOp(cap) => caching.PutCap(cap);
      case AddCheckpointOp(id, c) => caching.AddCheckpoint(id, c);
      case UpdateCheckpointOp(id, update) => var found := caching.UpdateCheckpoint(id, update);
      case RemoveCheckpointOp(id) => caching.RemoveCheckpoint(id);
      case TruncateCheckpointsOp(id) => caching.TruncateCheckpointsRetaining(id);
    }
  }

  /** Loading, any operations, flushing: the same as the operations applied directly. */
  method WriteBackEqualsDirect<H>(store: MemoryShardStore<H>, ops: seq<StoreOp<H>>)
    returns (flushed: MemoryShardStore<H>)
    requires store.Valid()
    modifies store
    ensures flushed == store && flushed.Contents() == ApplyAll(old(store.Contents()), ops)
  {
    var caching := new CachingShardStore(store);
    var i := 0;
    while i < |ops|
      invariant 0 <= i <= |ops| && caching.Valid() && caching.backend == store && fresh(caching) && fresh(caching.cache)
      invariant caching.ops == ops[..i] && store.Contents() == old(store.Contents())
    {
      Submit(caching, ops[i]);
      assert ops[..i + 1] == ops[..i] + [ops[i]];
      i := i + 1;
    }
    assert ops[..i] == ops;
    flushed := caching.Flush();
  }
}
