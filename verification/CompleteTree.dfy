/** `incrementalmerkletree-testing/src/complete_tree.rs`: the reference tree that keeps every leaf. */
module CompleteTrees {

  import opened Basics
  import opened Merkle
  import opened PrunableTrees
  import opened Caps
  import opened Stores
  import opened ExcessCheckpoints
  import opened ShardTrees

  // ---------- The reference root ----------

  /** Every node of one level, from left to right. */
  ghost predicate IsRow<H>(hs: Hashable<H>, leaves: seq<H>, level: nat, row: seq<H>)
  {
    forall i | 0 <= i < |row| :: row[i] == Root(hs, leaves, level, i)
  }

  function Padded<H>(hs: Hashable<H>, leaves: seq<H>, width: nat): (row: seq<H>)
    ensures |row| == width && forall i | 0 <= i < width :: row[i] == LeafAt(hs, leaves, i)
  {
    seq(width, i requires 0 <= i < width => LeafAt(hs, leaves, i))
  }

  /** One level up: even entries zipped with odd ones. */
  function RowAbove<H>(hs: Hashable<H>, level: nat, row: seq<H>): (r: seq<H>)
    ensures |r| == |row| / 2 && forall i | 0 <= i < |r| :: r[i] == hs.combine(level, row[2 * i], row[2 * i + 1])
  {
    seq(|row| / 2, i requires 0 <= i < |row| / 2 => hs.combine(level, row[2 * i], row[2 * i + 1]))
  }

  lemma RowAboveIsRow<H>(hs: Hashable<H>, leaves: seq<H>, level: nat, row: seq<H>)
    requires IsRow(hs, leaves, level, row)
    ensures IsRow(hs, leaves, level + 1, RowAbove(hs, level, row))
  {
    var above := RowAbove(hs, level, row);
    forall i | 0 <= i < |above| ensures above[i] == Root(hs, leaves, level + 1, i) {
      assert row[2 * i] == Root(hs, leaves, level, 2 * i) && row[2 * i + 1] == Root(hs, leaves, level, 2 * i + 1);
    }
  }

  /** `root`: hashes the padded leaves together level by level. */
  method RootByRows<H>(hs: Hashable<H>, leaves: seq<H>, depth: nat) returns (r: H)
    ensures r == Root(hs, leaves, depth, 0)
  {
    StartZero(depth);
    var row := Padded(hs, leaves, Start(depth, 1));
    var level := 0;
    while |row| != 1
      invariant level <= depth && |row| == Start(depth - level, 1)
      invariant IsRow(hs, leaves, level, row)
      decreases |row|
    {
      StartZero(depth - level);
      assert level < depth;
      StartSum(depth - level - 1, 1);
      RowAboveIsRow(hs, leaves, level, row);
      row := RowAbove(hs, level, row);
      level := level + 1;
    }
    if level < depth { StartZero(depth - level); }
    r := row[0];
  }

  // ---------- The reference witness ----------

  /** `index ^ (1 << bit)` */
  function FlipBit(index: nat, bit: nat): nat
  {
    AboveRange(bit, index);
    Start(bit, SiblingIndex(Above(bit, index))) + (index - Start(bit, Above(bit, index)))
  }

  /** `index & (MAX << bits)` */
  function ClearLow(index: nat, bits: nat): nat
  {
    Start(bits, Above(bits, index))
  }

  /** The hash of the sibling at a level, from the leaves below it alone. */
  method SiblingHash<H>(hs: Hashable<H>, leaves: seq<H>, count: nat, from: nat, bit: nat, ghost index: nat)
    returns (r: H)
    requires count <= |leaves| && from == Start(bit, index)
    ensures r == Root(hs, leaves[..count], bit, index)
  {
    if from < count {
      var end := if from + Start(bit, 1) < count then from + Start(bit, 1) else count;
      var part := leaves[from..end];
      StartZero(bit);
      StartSum(bit, index);
      forall p: nat | from <= p < from + End(bit, 0)
        ensures LeafAt(hs, leaves[..count], p) == LeafAt(hs, part, p - from)
      {
      }
      RootShift(hs, leaves[..count], from, part, bit, index, 0);
      r := RootByRows(hs, part, bit);
    } else {
      RootEmpty(hs, leaves[..count], bit, index);
      r := EmptyRoot(hs, bit);
    }
  }

  /** The loop of `witness`: flips one bit after the other. */
  method WitnessByBits<H>(hs: Hashable<H>, leaves: seq<H>, count: nat, position: nat, depth: nat) returns (path: seq<H>)
    requires count <= |leaves|
    ensures path == RefPath(hs, leaves[..count], position, depth)
  {
    path := [];
    var leafIndex := position;
    for bit := 0 to depth
      invariant leafIndex == Start(bit, Above(bit, position))
      invariant path == RefPath(hs, leaves[..count], position, bit)
    {
      var above := Above(bit, position);
      AboveRange(bit, position);
      StartMono(bit, above, above + 1);
      AboveUnique(bit, leafIndex, above);
      leafIndex := FlipBit(leafIndex, bit);
      var sibling := SiblingHash(hs, leaves, count, leafIndex, bit, SiblingIndex(above));
      path := path + [sibling];
      CleanedUp(bit, position);
      leafIndex := ClearLow(leafIndex, bit + 1);
    }
  }

  lemma CleanedUp(bit: nat, position: nat)
    ensures ClearLow(Start(bit, SiblingIndex(Above(bit, position))), bit + 1) ==
      Start(bit + 1, Above(bit + 1, position))
  {
    var above := Above(bit, position);
    var sibling := SiblingIndex(above);
    assert Above(bit + 1, position) == above / 2 == sibling / 2;
    StartMono(bit, sibling, sibling + 1);
    AboveUnique(bit, Start(bit, sibling), sibling);
    assert Above(bit + 1, Start(bit, sibling)) == sibling / 2;
  }

  // ---------- The reference tree ----------

  datatype CompleteCheckpoint = CompleteCheckpoint(leavesLen: nat, marked: set<nat>, forgotten: set<nat>)

  /** Every checkpoint stands for the leaves there were when it was taken. */
  ghost predicate Remembers<H>(leaves: seq<H>, saved: map<int, seq<H>>, checkpoints: map<int, CompleteCheckpoint>)
  {
    && saved.Keys == checkpoints.Keys
    && (forall id {:trigger StandsFor(leaves, saved, checkpoints, id)} | id in checkpoints ::
        StandsFor(leaves, saved, checkpoints, id))
    && (forall i, j {:trigger InTurn(saved, i, j)} | i in saved && j in saved && i < j :: InTurn(saved, i, j))
  }

  ghost predicate StandsFor<H>(leaves: seq<H>, saved: map<int, seq<H>>,
                               checkpoints: map<int, CompleteCheckpoint>, id: int)
    requires id in checkpoints
  {
    id in saved && checkpoints[id].leavesLen == |saved[id]| && saved[id] <= leaves
  }

  ghost predicate InTurn<H>(saved: map<int, seq<H>>, i: int, j: int)
    requires i in saved && j in saved
  {
    |saved[i]| <= |saved[j]|
  }

  /** The oldest identifiers, beyond the number to keep. */
  function OldestOver(ids: set<int>, max: nat): seq<int>
  {
    InOrder(ids)[0..if |ids| > max then |ids| - max else 0]
  }

  function WithoutIds<V>(m: map<int, V>, ids: seq<int>): map<int, V>
  {
    map id | id in m && id !in ids :: m[id]
  }

  function Latest<V>(m: map<int, V>, max: nat): map<int, V>
  {
    WithoutIds(m, OldestOver(m.Keys, max))
  }

  lemma WithoutNone<V>(m: map<int, V>)
    ensures WithoutIds(m, []) == m
  {
  }

  lemma OldestOfOneTooMany(ids: set<int>, max: nat)
    requires |ids| <= max + 1
    ensures |ids| <= max ==> OldestOver(ids, max) == []
    ensures |ids| > max ==> ids != {} && OldestOver(ids, max) == [Least(ids)]
  {
    var all := InOrder(ids);
    if |ids| > max { assert all[0..1] == [all[0]]; }
  }

  lemma WithoutOne<V>(m: map<int, V>, id: int)
    requires id in m
    ensures WithoutIds(m, [id]) == m - {id} && |m - {id}| == |m| - 1
  {
    assert (m - {id}).Keys == m.Keys - {id};
    SameSize(m);
    SameSize(m - {id});
  }

  /** One identifier too many: the least one goes. */
  lemma OneTooMany<V>(m: map<int, V>, max: nat)
    requires |m| <= max + 1
    ensures |m| <= max ==> Latest(m, max) == m
    ensures |m| > max ==> m.Keys != {} && Latest(m, max) == m - {Least(m.Keys)} && |Latest(m, max)| == max
  {
    SameSize(m);
    OldestOfOneTooMany(m.Keys, max);
    if |m| > max { WithoutOne(m, Least(m.Keys)); } else { WithoutNone(m); }
  }

  lemma RemembersNow<H>(leaves: seq<H>, saved: map<int, seq<H>>, checkpoints: map<int, CompleteCheckpoint>, id: int,
                        c: CompleteCheckpoint)
    requires Remembers(leaves, saved, checkpoints) && (forall i | i in checkpoints :: i < id) && c.leavesLen == |leaves|
    ensures Remembers(leaves, saved[id := leaves], checkpoints[id := c])
    ensures |checkpoints[id := c]| == |checkpoints| + 1
  {
    var more, all := saved[id := leaves], checkpoints[id := c];
    assert id !in checkpoints && all.Keys == checkpoints.Keys + {id} && more.Keys == saved.Keys + {id};
    assert |all| == |all.Keys| && |checkpoints| == |checkpoints.Keys|;
    forall i | i in saved ensures |saved[i]| <= |leaves| && i < id {
      assert i in saved.Keys && i in checkpoints && StandsFor(leaves, saved, checkpoints, i);
    }
    forall i | i in all ensures StandsFor(leaves, more, all, i) {
      assert i != id ==> StandsFor(leaves, saved, checkpoints, i);
    }
    forall i, j | i in more && j in more && i < j ensures InTurn(more, i, j) { assert j != id ==> InTurn(saved, i, j); }
  }

  lemma RemembersFewer<H>(leaves: seq<H>, saved: map<int, seq<H>>, checkpoints: map<int, CompleteCheckpoint>, id: int)
    requires Remembers(leaves, saved, checkpoints)
    ensures Remembers(leaves, saved - {id}, checkpoints - {id})
  {
    var fewer, kept := saved - {id}, checkpoints - {id};
    assert fewer.Keys == saved.Keys - {id} && kept.Keys == checkpoints.Keys - {id};
    forall i | i in kept ensures StandsFor(leaves, fewer, kept, i) { assert StandsFor(leaves, saved, checkpoints, i); }
    forall i, j | i in fewer && j in fewer && i < j ensures InTurn(fewer, i, j) { assert InTurn(saved, i, j); }
  }

  lemma RemembersMore<H>(leaves: seq<H>, saved: map<int, seq<H>>, checkpoints: map<int, CompleteCheckpoint>, value: H)
    requires Remembers(leaves, saved, checkpoints)
    ensures Remembers(leaves + [value], saved, checkpoints)
  {
    var more := leaves + [value];
    forall i | i in checkpoints ensures StandsFor(more, saved, checkpoints, i) {
      assert StandsFor(leaves, saved, checkpoints, i);
    }
  }

  /** Changing only the marks of a checkpoint. */
  lemma RemembersUpdate<H>(leaves: seq<H>, saved: map<int, seq<H>>, checkpoints: map<int, CompleteCheckpoint>, id: int,
                           c: CompleteCheckpoint)
    requires Remembers(leaves, saved, checkpoints) && id in checkpoints && c.leavesLen == checkpoints[id].leavesLen
    ensures Remembers(leaves, saved, checkpoints[id := c]) && checkpoints[id := c].Keys == checkpoints.Keys
      && |checkpoints[id := c]| == |checkpoints|
  {
    assert checkpoints[id := c].Keys == checkpoints.Keys;
    var all := checkpoints[id := c];
    forall i | i in all ensures StandsFor(leaves, saved, all, i) { assert StandsFor(leaves, saved, checkpoints, i); }
    assert |checkpoints[id := c]| == |checkpoints[id := c].Keys| && |checkpoints| == |checkpoints.Keys|;
  }

  /** Dropping every identifier after the one at a depth leaves those up to it. */
  lemma DropLater<V>(m: map<int, V>, ids: seq<int>, d: nat)
    requires ids == InOrder(m.Keys) && d < |ids|
    ensures |ids| == |m.Keys| && IdAtDepth(m.Keys, d) == Some(ids[|ids| - 1 - d]) && ids[|ids| - 1 - d] in m
    ensures forall id | id in m :: id in ids[|ids| - d..|ids|] <==> id > ids[|ids| - 1 - d]
  {
    var k := |ids| - d;
    SplitAscending(ids, k);
    assert ids[k - 1] in ids && ids[k - 1] in m.Keys;
    assert ids[0..k][k - 1] == ids[k - 1];
    forall id | id in m ensures id in ids[k..|ids|] <==> id > ids[k - 1] {
      assert id in m.Keys && id in ids;
      if id in ids[0..k] {
        var i :| 0 <= i < k && ids[0..k][i] == id;
        assert ids[i] <= ids[k - 1];
      }
    }
  }

  /** Going back to a checkpoint. */
  lemma RemembersBack<H>(leaves: seq<H>, saved: map<int, seq<H>>, checkpoints: map<int, CompleteCheckpoint>, id: int,
                         fewer: map<int, CompleteCheckpoint>)
    requires Remembers(leaves, saved, checkpoints) && id in checkpoints
    requires forall i :: i in fewer <==> i in checkpoints && i <= id
    requires forall i | i in fewer :: fewer[i].leavesLen == checkpoints[i].leavesLen
    ensures id in saved && Remembers(saved[id], UpTo(saved, id), fewer)
    ensures |fewer| <= |checkpoints|
  {
    var kept := UpTo(saved, id);
    assert id in saved.Keys;
    forall i ensures i in kept.Keys <==> i in fewer.Keys { assert i in saved.Keys <==> i in checkpoints.Keys; }
    var back := saved[id];
    assert StandsFor(leaves, saved, checkpoints, id);
    forall i | i in fewer ensures StandsFor(back, kept, fewer, i) {
      assert i in fewer.Keys && i in kept.Keys && StandsFor(leaves, saved, checkpoints, i);
      assert i < id ==> InTurn(saved, i, id);
    }
    forall i, j | i in kept && j in kept && i < j ensures InTurn(kept, i, j) { assert InTurn(saved, i, j); }
    Fewer(fewer, checkpoints);
  }

  lemma Fewer<V, W>(a: map<int, V>, b: map<int, W>)
    requires a.Keys <= b.Keys
    ensures |a| <= |b|
  {
    SameSize(a);
    SameSize(b);
    SubsetSize(a.Keys, b.Keys);
  }

  lemma {:induction false} SubsetSize(a: set<int>, b: set<int>)
    requires a <= b
    ensures |a| <= |b|
  {
    if a != {} {
      var x := Least(a);
      SubsetSize(a - {x}, b - {x});
    }
  }

  lemma HasGreatest(ids: set<int>)
    requires ids != {}
    ensures exists m :: m in ids && forall i | i in ids :: i <= m
  {
    var all := InOrder(ids);
    assert all[|all| - 1] in ids;
    forall i | i in ids ensures i <= all[|all| - 1] { assert i in all; }
  }

  /** The last key of a `BTreeMap`. */
  function Greatest(ids: set<int>): (m: int)
    requires ids != {}
    ensures m in ids && forall i | i in ids :: i <= m
  {
    HasGreatest(ids);
    var m :| m in ids && forall i | i in ids :: i <= m;
    m
  }

  /** The checkpoints after a position was marked: the latest one remembers it. */
  function MarkedInLatest(checkpoints: map<int, CompleteCheckpoint>, position: nat): map<int, CompleteCheckpoint>
  {
    if checkpoints.Keys == {} then checkpoints
    else
      var latest := Greatest(checkpoints.Keys);
      checkpoints[latest := checkpoints[latest].(marked := checkpoints[latest].marked + {position})]
  }

  lemma MarkedKept<H>(leaves: seq<H>, saved: map<int, seq<H>>, checkpoints: map<int, CompleteCheckpoint>, position: nat)
    requires Remembers(leaves, saved, checkpoints)
    ensures var all := MarkedInLatest(checkpoints, position);
            Remembers(leaves, saved, all) && all.Keys == checkpoints.Keys && |all| == |checkpoints|
  {
    if checkpoints.Keys != {} {
      var latest := Greatest(checkpoints.Keys);
      var c := checkpoints[latest];
      RemembersUpdate(leaves, saved, checkpoints, latest, c.(marked := c.marked + {position}));
    }
  }

  /** The checkpoints after a position was marked, which they record the first time. */
  function AfterMark(marks: set<nat>, checkpoints: map<int, CompleteCheckpoint>, position: nat)
      : map<int, CompleteCheckpoint>
  {
    if position in marks then checkpoints else MarkedInLatest(checkpoints, position)
  }

  /** Whether a leaf is to be marked. */
  predicate MarksLeaf(retention: Retention)
  {
    retention.Marked? || (retention.CheckpointAt? && retention.marking.AsMark?)
  }

  function MarksWith(marks: set<nat>, retention: Retention, position: nat): set<nat>
  {
    if MarksLeaf(retention) then marks + {position} else marks
  }

  function MarkedAs(marks: set<nat>, checkpoints: map<int, CompleteCheckpoint>, retention: Retention, position: nat)
      : map<int, CompleteCheckpoint>
  {
    if MarksLeaf(retention) then AfterMark(marks, checkpoints, position) else checkpoints
  }

  function ForgottenInLatest(checkpoints: map<int, CompleteCheckpoint>, position: nat): map<int, CompleteCheckpoint>
  {
    if checkpoints.Keys == {} then checkpoints
    else
      var latest := Greatest(checkpoints.Keys);
      checkpoints[latest := checkpoints[latest].(forgotten := checkpoints[latest].forgotten + {position})]
  }

  /** The marks that go when the oldest of too many checkpoints is dropped. */
  function DroppedMarks(checkpoints: map<int, CompleteCheckpoint>, max: nat): set<nat>
  {
    if |checkpoints.Keys| > max && checkpoints.Keys != {} then checkpoints[Least(checkpoints.Keys)].forgotten else {}
  }

  /** With one checkpoint too many, exactly the oldest goes, and the marks it saw removed with it. */
  lemma OldestGoes(checkpoints: map<int, CompleteCheckpoint>, max: nat)
    requires |checkpoints| <= max + 1
    ensures |checkpoints| <= max ==> DroppedMarks(checkpoints, max) == {}
    ensures |checkpoints| > max ==>
      checkpoints.Keys != {} && DroppedMarks(checkpoints, max) == checkpoints[Least(checkpoints.Keys)].forgotten
  {
    SameSize(checkpoints);
    OneTooMany(checkpoints, max);
  }

  lemma LatestRemembers<H>(leaves: seq<H>, saved: map<int, seq<H>>, checkpoints: map<int, CompleteCheckpoint>, max: nat)
    requires Remembers(leaves, saved, checkpoints) && |checkpoints| <= max + 1
    ensures Remembers(leaves, Latest(saved, max), Latest(checkpoints, max)) && |Latest(checkpoints, max)| <= max
    ensures |checkpoints| <= max ==> Latest(saved, max) == saved && Latest(checkpoints, max) == checkpoints
    ensures |checkpoints| > max ==>
      var oldest := {Least(checkpoints.Keys)};
      Latest(saved, max) == saved - oldest && Latest(checkpoints, max) == checkpoints - oldest
  {
    SameSizes(saved, checkpoints);
    OneTooMany(checkpoints, max);
    OneTooMany(saved, max);
    if |checkpoints| > max { RemembersFewer(leaves, saved, checkpoints, Least(checkpoints.Keys)); }
  }

  lemma RecordedKept<H>(leaves: seq<H>, saved: map<int, seq<H>>, checkpoints: map<int, CompleteCheckpoint>,
                        id: int, max: nat)
    requires Remembers(leaves, saved, checkpoints) && (forall i | i in checkpoints :: i < id) && |checkpoints| <= max
    ensures var all, more := checkpoints[id := CompleteCheckpoint(|leaves|, {}, {})], saved[id := leaves];
            && Remembers(leaves, Latest(more, max), Latest(all, max)) && |Latest(all, max)| <= max
            && (|all| <= max ==> Latest(all, max) == all && Latest(more, max) == more && DroppedMarks(all, max) == {})
            && (|all| > max ==>
                 && all.Keys != {} && Latest(all, max) == all - {Least(all.Keys)}
                   && Latest(more, max) == more - {Least(all.Keys)}
                 && DroppedMarks(all, max) == all[Least(all.Keys)].forgotten)
  {
    var all := checkpoints[id := CompleteCheckpoint(|leaves|, {}, {})];
    RemembersNow(leaves, saved, checkpoints, id, CompleteCheckpoint(|leaves|, {}, {}));
    LatestRemembers(leaves, saved[id := leaves], all, max);
    OldestGoes(all, max);
  }

  /** Whether a position was marked since the checkpoint with the given identifier was taken. */
  ghost predicate MarkedSince(checkpoints: map<int, CompleteCheckpoint>, id: int, position: nat)
  {
    exists i :: i in checkpoints && i >= id && position in checkpoints[i].marked
  }

  /** Whether one of the given checkpoints recorded the marking of a position. */
  ghost predicate MarkedIn(checkpoints: map<int, CompleteCheckpoint>, ids: seq<int>, position: nat)
  {
    exists id :: id in ids && id in checkpoints && position in checkpoints[id].marked
  }

  lemma MarkedInMore(checkpoints: map<int, CompleteCheckpoint>, id: int, ids: seq<int>, position: nat)
    requires id in checkpoints
    ensures MarkedIn(checkpoints, [id] + ids, position) <==>
      position in checkpoints[id].marked || MarkedIn(checkpoints, ids, position)
  {
    assert forall i :: i in [id] + ids <==> i == id || i in ids;
  }

  lemma MarkedSinceIs(checkpoints: map<int, CompleteCheckpoint>, target: int, later: seq<int>, position: nat)
    requires target in checkpoints && forall id | id in checkpoints :: id in later <==> id > target
    ensures MarkedSince(checkpoints, target, position) <==>
      position in checkpoints[target].marked || MarkedIn(checkpoints, later, position)
  {
  }

  /** Without the later checkpoints, those up to the target are left. */
  lemma KeptIsUpTo<V>(m: map<int, V>, target: int, later: seq<int>)
    requires forall id | id in m :: id in later <==> id > target
    ensures WithoutIds(m, later) == UpTo(m, target)
  {
  }

  lemma SavedIs<H>(leaves: seq<H>, saved: map<int, seq<H>>, checkpoints: map<int, CompleteCheckpoint>, id: int)
    requires Remembers(leaves, saved, checkpoints) && id in checkpoints
    ensures id in saved && checkpoints[id].leavesLen <= |leaves| && leaves[..checkpoints[id].leavesLen] == saved[id]
  {
    assert StandsFor(leaves, saved, checkpoints, id);
  }

  /** The checkpoints up to one to go back to, which then records nothing. */
  function KeptUpTo(checkpoints: map<int, CompleteCheckpoint>, target: int): map<int, CompleteCheckpoint>
    requires target in checkpoints
  {
    UpTo(checkpoints, target)[target := CompleteCheckpoint(checkpoints[target].leavesLen, {}, {})]
  }

  lemma BackTo<H>(leaves: seq<H>, saved: map<int, seq<H>>, checkpoints: map<int, CompleteCheckpoint>, target: int)
    requires Remembers(leaves, saved, checkpoints) && target in checkpoints
    ensures target in saved && checkpoints[target].leavesLen == |saved[target]| <= |leaves|
    ensures leaves[..checkpoints[target].leavesLen] == saved[target]
    ensures Remembers(saved[target], UpTo(saved, target), KeptUpTo(checkpoints, target))
      && |KeptUpTo(checkpoints, target)| <= |checkpoints|
  {
    SavedIs(leaves, saved, checkpoints, target);
    RemembersBack(leaves, saved, checkpoints, target, KeptUpTo(checkpoints, target));
  }

  class CompleteTree<H(==)>
  {
    const hs: Hashable<H>
    const depth: nat
    const maxCheckpoints: nat
    var leaves: seq<H>
    var marks: set<nat>
    var checkpoints: map<int, CompleteCheckpoint>
    ghost var saved: map<int, seq<H>>

    ghost predicate Valid()
      reads this
    {
      && |leaves| <= End(depth, 0) && |checkpoints| <= maxCheckpoints
      && Remembers(leaves, saved, checkpoints)
    }

    constructor (hs: Hashable<H>, depth: nat, maxCheckpoints: nat)
      ensures Valid() && leaves == [] && saved == map[] && marks == {} && checkpoints == map[]
      ensures this.hs == hs && this.depth == depth && this.maxCheckpoints == maxCheckpoints
    {
      this.hs, this.depth, this.maxCheckpoints := hs, depth, maxCheckpoints;
      leaves, marks, checkpoints, saved := [], {}, map[], map[];
    }

    /** Whether an identifier is greater than every stored one. */
    method IsNext(id: int) returns (r: bool)
      ensures r <==> forall i | i in checkpoints :: i < id
    {
      r := checkpoints.Keys == {} || Greatest(checkpoints.Keys) < id;
      assert forall i | i in checkpoints :: i in checkpoints.Keys;
    }

    /** `mark` */
    method Mark()
      requires Valid()
      modifies this`marks, this`checkpoints
      ensures Valid() && checkpoints.Keys == old(checkpoints).Keys
      ensures leaves == [] ==> marks == old(marks) && checkpoints == old(checkpoints)
      ensures leaves != [] ==>
        marks == old(marks) + {|leaves| - 1} && checkpoints == AfterMark(old(marks), old(checkpoints), |leaves| - 1)
    {
      if leaves == [] { return; }
      var position: nat := |leaves| - 1;
      AddMember(marks, position);
      if position in marks { return; }
      MarkedKept(leaves, saved, checkpoints, position);
      marks := marks + {position};
      checkpoints := MarkLatest(checkpoints, position);
    }

    /** The private `checkpoint`: records the present length, and drops the oldest checkpoint if there is one
        too many. */
    method Record(id: int)
      requires Valid() && forall i | i in checkpoints :: i < id
      modifies this`marks, this`checkpoints, this`saved
      ensures Valid() && saved == Latest(old(saved)[id := leaves], maxCheckpoints)
      ensures checkpoints == Latest(old(checkpoints)[id := CompleteCheckpoint(|leaves|, {}, {})], maxCheckpoints)
      ensures marks == old(marks) - DroppedMarks(old(checkpoints)[id := CompleteCheckpoint(|leaves|, {}, {})],
                                                 maxCheckpoints)
    {
      RecordedKept(leaves, saved, checkpoints, id, maxCheckpoints);
      var all := checkpoints[id := CompleteCheckpoint(|leaves|, {}, {})];
      if |all| > maxCheckpoints {
        var oldest := Least(all.Keys);
        marks := marks - all[oldest].forgotten;
        checkpoints, saved := all - {oldest}, saved[id := leaves] - {oldest};
      } else {
        checkpoints, saved := all, saved[id := leaves];
      }
    }

    /** Pushes a leaf unless the tree is full, and marks it if asked to. */
    method AppendLeaf(value: H, marking: bool) returns (ok: bool)
      requires Valid()
      modifies this`leaves, this`marks, this`checkpoints
      ensures Valid() && ok == (|old(leaves)| < End(depth, 0)) && checkpoints.Keys == old(checkpoints).Keys
      ensures !ok ==> leaves == old(leaves) && marks == old(marks) && checkpoints == old(checkpoints)
      ensures ok ==> leaves == old(leaves) + [value]
      ensures ok ==> marks == if marking then old(marks) + {|old(leaves)|} else old(marks)
      ensures ok ==>
        checkpoints == if marking then AfterMark(old(marks), old(checkpoints), |old(leaves)|) else old(checkpoints)
    {
      StartZero(depth);
      if |leaves| >= Start(depth, 1) { return false; }
      RemembersMore(leaves, saved, checkpoints, value);
      leaves := leaves + [value];
      if marking { Mark(); }
      ok := true;
    }

    /** `append` */
    method Append(value: H, retention: Retention) returns (ok: bool)
      requires Valid()
      modifies this
      ensures Valid()
      ensures ok <==>
        (retention.CheckpointAt? ==> forall i | i in old(checkpoints) :: i < retention.id)
        && |old(leaves)| < End(depth, 0)
      ensures !ok ==>
        leaves == old(leaves) && saved == old(saved) && marks == old(marks) && checkpoints == old(checkpoints)
      ensures ok ==> leaves == old(leaves) + [value]
      ensures ok ==>
        var newMarks, marked := MarksWith(old(marks), retention, |old(leaves)|),
          MarkedAs(old(marks), old(checkpoints), retention, |old(leaves)|);
        if retention.CheckpointAt? then
          var all := marked[retention.id := CompleteCheckpoint(|leaves|, {}, {})];
          checkpoints == Latest(all, maxCheckpoints) && marks == newMarks - DroppedMarks(all, maxCheckpoints)
        else marks == newMarks && checkpoints == marked
      ensures ok ==>
        saved == if retention.CheckpointAt? then Latest(old(saved)[retention.id := leaves], maxCheckpoints)
        else old(saved)
    {
      if retention.CheckpointAt? {
        var next := IsNext(retention.id);
        if !next { return false; }
      }
      ok := AppendLeaf(value, MarksLeaf(retention));
      if ok && retention.CheckpointAt? {
        assert forall i | i in checkpoints :: i in checkpoints.Keys;
        Record(retention.id);
      }
    }

    /** The public `checkpoint`. */
    method AddCheckpoint(id: int) returns (ok: bool)
      requires Valid()
      modifies this
      ensures Valid() && leaves == old(leaves)
      ensures ok <==> forall i | i in old(checkpoints) :: i < id
      ensures saved == if ok then Latest(old(saved)[id := leaves], maxCheckpoints) else old(saved)
      ensures ok ==>
        && checkpoints == Latest(old(checkpoints)[id := CompleteCheckpoint(|leaves|, {}, {})], maxCheckpoints)
        && marks == old(marks) - DroppedMarks(old(checkpoints)[id := CompleteCheckpoint(|leaves|, {}, {})],
                                              maxCheckpoints)
      ensures !ok ==> checkpoints == old(checkpoints) && marks == old(marks)
    {
      ok := IsNext(id);
      if ok { Record(id); }
    }

    /** `remove_mark`: remembered by the latest checkpoint, or at once if there is none. */
    method RemoveMark(position: nat) returns (ok: bool)
      requires Valid()
      modifies this`marks, this`checkpoints
      ensures Valid() && checkpoints.Keys == old(checkpoints).Keys
      ensures ok == (position in old(marks))
      ensures marks == if ok && checkpoints == map[] then old(marks) - {position} else old(marks)
      ensures checkpoints == if ok then ForgottenInLatest(old(checkpoints), position) else old(checkpoints)
    {
      ok := position in marks;
      if ok {
        if checkpoints.Keys != {} {
          var latest := Greatest(checkpoints.Keys);
          var c := checkpoints[latest];
          RemembersUpdate(leaves, saved, checkpoints, latest, c.(forgotten := c.forgotten + {position}));
          checkpoints := checkpoints[latest := c.(forgotten := c.forgotten + {position})];
        } else {
          marks := marks - {position};
        }
      }
    }

    /** `rewind`: goes back to the checkpoint at a depth and drops the later ones. */
    method Rewind(checkpointDepth: nat) returns (ok: bool)
      requires Valid()
      modifies this
      ensures Valid() && ok == (checkpointDepth < |old(saved)|)
      ensures !ok ==>
        leaves == old(leaves) && saved == old(saved) && marks == old(marks) && checkpoints == old(checkpoints)
      ensures ok ==>
        var id := IdAtDepth(old(saved).Keys, checkpointDepth);
        && id.Some? && id.value in old(saved) && leaves == old(saved)[id.value] && saved == UpTo(old(saved), id.value)
        && (forall p :: p in marks <==> p in old(marks) && !MarkedSince(old(checkpoints), id.value, p))
        && id.value in old(checkpoints) && checkpoints == KeptUpTo(old(checkpoints), id.value)
    {
      hide IdAtDepth, UpTo, KeptUpTo, MarkedSince, Start, End, InOrder;
      SameSizes(saved, checkpoints);
      if checkpointDepth >= |checkpoints| { return false; }
      var target, kept, remaining := GoBack(checkpoints, marks, checkpointDepth);
      BackTo(leaves, saved, checkpoints, target);
      marks, leaves := remaining, leaves[..checkpoints[target].leavesLen];
      checkpoints, saved := kept, UpTo(saved, target);
      ok := true;
    }

    /** `root`: the root over the leaves at a checkpoint, or over all of them. */
    method GetRoot(checkpointDepth: Option<nat>) returns (r: Option<H>)
      requires Valid()
      ensures checkpointDepth.None? ==> r == Some(Root(hs, leaves, depth, 0))
      ensures checkpointDepth.Some? ==>
        var id := IdAtDepth(saved.Keys, checkpointDepth.value);
        if id.None? then r == None else id.value in saved && r == Some(Root(hs, saved[id.value], depth, 0))
    {
      if checkpointDepth.None? {
        var all := RootByRows(hs, leaves, depth);
        return Some(all);
      }
      var id := IdAtDepth(checkpoints.Keys, checkpointDepth.value);
      if id.None? { return None; }
      SavedIs(leaves, saved, checkpoints, id.value);
      var root := RootByRows(hs, leaves[..checkpoints[id.value].leavesLen], depth);
      r := Some(root);
    }

    /** `witness`: the sibling hashes of a marked leaf in the tree as it was at a checkpoint. */
    method GetWitness(position: nat, checkpointDepth: nat) returns (r: Option<seq<H>>)
      requires Valid()
      ensures var id := IdAtDepth(saved.Keys, checkpointDepth);
              if position !in marks || id.None? then r == None
              else
                && id.value in saved
                && r ==
                  if position < |saved[id.value]| then Some(RefPath(hs, saved[id.value], position, depth)) else None
    {
      if position !in marks { return None; }
      var id := IdAtDepth(checkpoints.Keys, checkpointDepth);
      if id.None? { return None; }
      SavedIs(leaves, saved, checkpoints, id.value);
      var count := checkpoints[id.value].leavesLen;
      if position >= count { return None; }
      var path := WitnessByBits(hs, leaves, count, position, depth);
      r := Some(path);
    }
  }

  /** Lets the latest checkpoint, if any, record a marking. */
  method MarkLatest(checkpoints: map<int, CompleteCheckpoint>, position: nat) returns (r: map<int, CompleteCheckpoint>)
    ensures r == MarkedInLatest(checkpoints, position)
  {
    r := checkpoints;
    if checkpoints.Keys != {} {
      var latest := Greatest(checkpoints.Keys);
      var c := checkpoints[latest];
      r := r[latest := c.(marked := c.marked + {position})];
    }
  }

  /** Removes the given identifiers one by one. */
  method WithoutAll(checkpoints: map<int, CompleteCheckpoint>, ids: seq<int>) returns (r: map<int, CompleteCheckpoint>)
    ensures r == WithoutIds(checkpoints, ids)
  {
    r := checkpoints;
    for k := 0 to |ids|
      invariant r == WithoutIds(checkpoints, ids[..k])
    {
      r := r - {ids[k]};
      assert ids[..k + 1] == ids[..k] + [ids[k]];
    }
    assert ids[..|ids|] == ids;
  }

  lemma AllKeys<V>(m: map<int, V>)
    ensures forall i | 0 <= i < |InOrder(m.Keys)| :: InOrder(m.Keys)[i] in m
  {
    var ids := InOrder(m.Keys);
    forall i | 0 <= i < |ids| ensures ids[i] in m { assert ids[i] in ids; }
  }

  /** The identifiers of the latest checkpoints, and the marks without those made since they were taken. */
  method CollectLater(checkpoints: map<int, CompleteCheckpoint>, ids: seq<int>, count: nat, marks: set<nat>)
    returns (later: seq<int>, remaining: set<nat>)
    requires (forall i | 0 <= i < |ids| :: ids[i] in checkpoints) && count <= |ids|
    ensures later == ids[|ids| - count..|ids|]
    ensures forall p :: p in remaining <==> p in marks && !MarkedIn(checkpoints, later, p)
  {
    later, remaining := [], marks;
    for index := 0 to count
      invariant later == ids[|ids| - index..|ids|]
      invariant forall p :: p in remaining <==> p in marks && !MarkedIn(checkpoints, later, p)
    {
      var id := ids[|ids| - 1 - index];
      forall p { MarkedInMore(checkpoints, id, later, p); }
      remaining := remaining - checkpoints[id].marked;
      later := [id] + later;
    }
  }

  /** The body of `rewind`: the checkpoint at a depth, those left once the later ones are gone, and the marks left. */
  method GoBack(checkpoints: map<int, CompleteCheckpoint>, marks: set<nat>, depth: nat)
    returns (target: int, kept: map<int, CompleteCheckpoint>, remaining: set<nat>)
    requires depth < |checkpoints|
    ensures IdAtDepth(checkpoints.Keys, depth) == Some(target) && target in checkpoints
    ensures kept == KeptUpTo(checkpoints, target)
    ensures forall p :: p in remaining <==> p in marks && !MarkedSince(checkpoints, target, p)
  {
    var ids := InOrder(checkpoints.Keys);
    SameSize(checkpoints);
    AllKeys(checkpoints);
    target := ids[|ids| - 1 - depth];
    var toDelete, left := CollectLater(checkpoints, ids, depth, marks);
    DropLater(checkpoints, ids, depth);
    forall p { MarkedSinceIs(checkpoints, target, toDelete, p); }
    KeptIsUpTo(checkpoints, target, toDelete);
    remaining := left - checkpoints[target].marked;
    kept := WithoutAll(checkpoints, toDelete);
    kept := kept[target := CompleteCheckpoint(checkpoints[target].leavesLen, {}, {})];
  }

  lemma AddMember(s: set<nat>, x: nat)
    ensures x in s ==> s + {x} == s
  {
  }

  lemma SameSizes<V, W>(a: map<int, V>, b: map<int, W>)
    requires a.Keys == b.Keys
    ensures |a| == |b|
  {
    SameSize(a);
    SameSize(b);
  }
}
