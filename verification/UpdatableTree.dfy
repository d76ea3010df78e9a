/** The updatable tree: leaves are set in any order, each time from the siblings read off the last root. */
module UpdatableTree {
  import opened Merkle
  import opened NodeTable
  import opened Wrappers
  import B = BlockRows

  // ----- UpsertLeaf -----

  /** One write: leaf `index` set to `leaf` at (block, pos). */
  datatype Write = Write(block: nat, pos: nat, index: nat, leaf: Hash)

  /** The root to start from, given what the query for the last root answers. */
  function RootHash(H: Hasher, last: Option<RootRow>, height: nat): Hash {
    if last.None? then Zero(H, height) else last.value.hash
  }

  /** The row a write records, computed from the siblings read off a root. */
  function RowOn(H: Hasher, rht: Rht, root: Hash, w: Write, height: nat): RootRow {
    var sib := Siblings(H, rht, root, w.index, height);
    RootRow(Climb(H, sib, w.leaf, w.index, height), w.index, w.block, w.pos)
  }

  function NodesOn(H: Hasher, rht: Rht, root: Hash, w: Write, height: nat): seq<Pair> {
    Path(H, Siblings(H, rht, root, w.index, height), w.leaf, w.index, height)
  }

  /** UpsertLeaf inside a transaction, from a root; None when the new root is already in the table. */
  function UpsertOn(H: Hasher, db: Db, root: Hash, w: Write, height: nat): Option<Db> {
    var row := RowOn(H, db.rht, root, w, height);
    if HasRoot(db.roots, row.hash) then None
    else Some(Db(PutAll(H, db.rht, NodesOn(H, db.rht, root, w, height)), db.roots + [row]))
  }

  // the same from the root written last

  function LastHash(H: Hasher, db: Db, height: nat): Hash {
    RootHash(H, Newest(db.roots), height)
  }

  function NewRow(H: Hasher, db: Db, w: Write, height: nat): RootRow {
    RowOn(H, db.rht, LastHash(H, db, height), w, height)
  }

  function NewNodes(H: Hasher, db: Db, w: Write, height: nat): seq<Pair> {
    NodesOn(H, db.rht, LastHash(H, db, height), w, height)
  }

  function Upsert(H: Hasher, db: Db, w: Write, height: nat): Option<Db> {
    UpsertOn(H, db, LastHash(H, db, height), w, height)
  }

  /** The leaves after a list of writes. */
  function Applied(ws: seq<Write>): Leaves {
    if ws == [] then map[] else Applied(ws[..|ws| - 1])[ws[|ws| - 1].index := ws[|ws| - 1].leaf]
  }

  ghost function Trail(ws: seq<Write>): (r: seq<Leaves>)
    ensures |r| == |ws|
    ensures forall k: nat {:trigger r[k]} :: k < |ws| ==> r[k] == Applied(ws[..k + 1])
  {
    seq(|ws|, k requires 0 <= k < |ws| => Applied(ws[..k + 1]))
  }

  ghost predicate Good(H: Hasher, height: nat, db: Db, ws: seq<Write>) {
    && Holds(H, height, db, Trail(ws)) && Ordered(db.roots)
    && (forall k: nat {:trigger ws[k]} :: k < |ws| ==>
          ws[k].index < Pow2(height) && db.roots[k].block == ws[k].block && db.roots[k].pos == ws[k].pos)
  }

  lemma TrailCurrent(ws: seq<Write>)
    ensures Current(Trail(ws)) == Applied(ws)
  {
    if ws != [] {
      assert ws[..|ws| - 1 + 1] == ws;
    }
  }

  lemma TrailPush(ws: seq<Write>, w: Write)
    ensures Trail(ws + [w]) == Trail(ws) + [Applied(ws)[w.index := w.leaf]]
    ensures Applied(ws + [w]) == Applied(ws)[w.index := w.leaf]
  {
    assert (ws + [w])[..|ws|] == ws && (ws + [w])[..|ws| + 1] == ws + [w];
    forall k: nat | k < |ws|
      ensures Trail(ws + [w])[k] == Trail(ws)[k]
    {
      assert (ws + [w])[..k + 1] == ws[..k + 1];
    }
  }

  lemma TrailPrefix(ws: seq<Write>, n: nat)
    requires n <= |ws|
    ensures Trail(ws)[..n] == Trail(ws[..n])
  {
    forall k: nat | k < n
      ensures Trail(ws)[k] == Trail(ws[..n])[k]
    {
      assert ws[..n][..k + 1] == ws[..k + 1];
    }
  }

  ghost predicate Follows(ws: seq<Write>, w: Write) {
    ws == [] || ws[|ws| - 1].block < w.block || (ws[|ws| - 1].block == w.block && ws[|ws| - 1].pos < w.pos)
  }

  /**
   In a good state a write records the root of the leaves with that one leaf changed, including where
   the siblings are zero hashes of nodes that were never stored. It is refused exactly when an earlier
   row already has that root.
   */
  lemma UpsertIsSpec(H: Hasher, height: nat, db: Db, ws: seq<Write>, w: Write)
    requires Good(H, height, db, ws) && w.index < Pow2(height) && Follows(ws, w)
    requires Clean(H, height, db.rht, NewNodes(H, db, w, height))
    ensures NewRow(H, db, w, height).hash == Root(H, Applied(ws + [w]), height)
    ensures Upsert(H, db, w, height).None? <==> HasRoot(db.roots, Root(H, Applied(ws + [w]), height))
    ensures Upsert(H, db, w, height).Some? ==> Good(H, height, Upsert(H, db, w, height).value, ws + [w])
  {
    hide Node, Siblings, PutAll, Stored;
    var m, row := Applied(ws), NewRow(H, db, w, height);
    var sib := Siblings(H, db.rht, LastHash(H, db, height), w.index, height);
    TrailCurrent(ws);
    TrailPush(ws, w);
    CurrentStored(H, height, db, Trail(ws));
    SoundEmptyNodes(H, height, db.rht);
    SiblingsOfStored(H, height, db.rht, m, w.index);
    UpIsZero(w.index, height);
    ClimbInsert(H, m, sib, w.index, w.leaf, height);
    if Upsert(H, db, w, height).Some? {
      RowFollows(H, height, db, ws, w, row);
      WrittenHolds(H, height, db, Trail(ws), sib, row, w.leaf);
    }
  }

  lemma RowFollows(H: Hasher, height: nat, db: Db, ws: seq<Write>, w: Write, row: RootRow)
    requires Good(H, height, db, ws) && Follows(ws, w) && row.block == w.block && row.pos == w.pos
    ensures Ordered(db.roots + [row]) && InBlockOrder(db.roots + [row])
  {
    hide Node, Stored, Sound;
    assert ws != [] ==> ws[|ws| - 1].block == db.roots[|ws| - 1].block;
    OrderedPush(db.roots, row);
    OrderedIsCertain(db.roots + [row]);
  }

  /** What a look-up says of a leaf: a leaf that is not found holds the zero hash. */
  function ValueOf(found: Option<Hash>): Hash {
    if found.Some? then found.value else 0
  }

  lemma LastRootIs(H: Hasher, height: nat, db: Db, ws: seq<Write>)
    requires Good(H, height, db, ws)
    ensures LastHash(H, db, height) == Root(H, Applied(ws), height)
  {
    hide Node, Stored, Sound;
    TrailCurrent(ws);
    CurrentStored(H, height, db, Trail(ws));
  }

  /** In a good state a look-up under the last root reads the leaf that the writes left there. */
  lemma LastRootReads(H: Hasher, height: nat, db: Db, ws: seq<Write>, i: nat)
    requires Good(H, height, db, ws) && i < Pow2(height)
    ensures ValueOf(Lookup(db.rht, LastHash(H, db, height), i, height)) == LeafAt(Applied(ws), i)
    ensures i in Applied(ws) ==> Lookup(db.rht, LastHash(H, db, height), i, height).Some?
  {
    hide Node, Lookup, Stored, Pow2;
    TrailCurrent(ws);
    CurrentStored(H, height, db, Trail(ws));
    SoundEmptyNodes(H, height, db.rht);
    UpIsZero(i, height);
    LookupReads(H, height, db.rht, Applied(ws), LastHash(H, db, height), i, height);
  }

  /** An accepted write changes the leaf that is read at its index and, in the new tables, no other. */
  lemma OtherLeavesStay(H: Hasher, height: nat, db: Db, ws: seq<Write>, w: Write, i: nat)
    requires Good(H, height, db, ws) && w.index < Pow2(height) && Follows(ws, w) && i < Pow2(height)
    requires Clean(H, height, db.rht, NewNodes(H, db, w, height)) && Upsert(H, db, w, height).Some?
    ensures var next := Upsert(H, db, w, height).value;
            ValueOf(Lookup(next.rht, LastHash(H, next, height), i, height))
            == if i == w.index then w.leaf else ValueOf(Lookup(db.rht, LastHash(H, db, height), i, height))
  {
    hide Good, Lookup, Upsert, LastHash, Pow2, Clean;
    UpsertIsSpec(H, height, db, ws, w);
    TrailPush(ws, w);
    LastRootReads(H, height, db, ws, i);
    LastRootReads(H, height, Upsert(H, db, w, height).value, ws + [w], i);
  }

  /** A write that takes the tree back to an earlier state is refused. */
  lemma ReturnRefused(H: Hasher, height: nat, db: Db, ws: seq<Write>, w: Write, k: nat)
    requires Good(H, height, db, ws) && w.index < Pow2(height) && Follows(ws, w)
    requires Clean(H, height, db.rht, NewNodes(H, db, w, height))
    requires k < |ws| && Applied(ws + [w]) == Applied(ws[..k + 1])
    ensures Upsert(H, db, w, height).None?
  {
    UpsertIsSpec(H, height, db, ws, w);
    assert Trail(ws)[k] == Applied(ws[..k + 1]);
    assert db.roots[k].hash == Root(H, Applied(ws + [w]), height);
  }

  /** The write takes every leaf back to what it was after write k. */
  ghost predicate ReturnsTo(ws: seq<Write>, w: Write, k: nat, height: nat) {
    k < |ws| && SameBelowHeight(Applied(ws + [w]), Applied(ws[..k + 1]), height)
  }

  /** With a collision-free hash those are the only refusals. */
  lemma RefusedIff(H: Hasher, height: nat, db: Db, ws: seq<Write>, w: Write)
    requires Injective(H) && Good(H, height, db, ws) && w.index < Pow2(height) && Follows(ws, w)
    requires Clean(H, height, db.rht, NewNodes(H, db, w, height))
    ensures Upsert(H, db, w, height).None? <==>
            exists k: nat :: ReturnsTo(ws, w, k, height)
  {
    UpsertIsSpec(H, height, db, ws, w);
    var now := Applied(ws + [w]);
    forall k: nat | k < |ws|
      ensures db.roots[k].hash == Root(H, now, height) <==> SameBelowHeight(now, Applied(ws[..k + 1]), height)
    {
      assert Trail(ws)[k] == Applied(ws[..k + 1]);
      RootSameIff(H, now, Applied(ws[..k + 1]), height);
    }
    if exists k: nat :: ReturnsTo(ws, w, k, height) {
      var k: nat :| ReturnsTo(ws, w, k, height);
      assert db.roots[k].hash == Root(H, now, height);
    }
    if HasRoot(db.roots, Root(H, now, height)) {
      var k: nat :| k < |db.roots| && db.roots[k].hash == Root(H, now, height);
      assert ReturnsTo(ws, w, k, height);
    }
  }

  ghost predicate SameBelowHeight(m: Leaves, n: Leaves, height: nat) {
    forall i: nat {:trigger LeafAt(m, i)} {:trigger LeafAt(n, i)} :: i < Pow2(height) ==> LeafAt(m, i) == LeafAt(n, i)
  }

  lemma RootSameIff(H: Hasher, m: Leaves, n: Leaves, height: nat)
    requires Injective(H)
    ensures Root(H, m, height) == Root(H, n, height) <==> SameBelowHeight(m, n, height)
  {
    if Root(H, m, height) == Root(H, n, height) {
      forall i: nat | i < Pow2(height)
        ensures LeafAt(m, i) == LeafAt(n, i)
      {
        RootBinds(H, m, n, height, i);
      }
    }
    if SameBelowHeight(m, n, height) {
      SameNodeBelow(H, m, n, height, height, 0);
    }
  }

  lemma {:induction false} SameNodeBelow(H: Hasher, m: Leaves, n: Leaves, height: nat, h: nat, p: nat)
    requires SameBelowHeight(m, n, height) && h <= height && p < Pow2(height - h)
    ensures Node(H, m, h, p) == Node(H, n, h, p)
    decreases h
  {
    if h == 0 {
      assert LeafAt(m, p) == LeafAt(n, p);
    } else {
      assert Pow2(height - (h - 1)) == 2 * Pow2(height - h);
      SameNodeBelow(H, m, n, height, h - 1, 2 * p);
      SameNodeBelow(H, m, n, height, h - 1, 2 * p + 1);
    }
  }

  // ----- runs of writes and reorgs -----

  datatype Op = Put(w: Write) | Reorg(from: nat)

  function Step(H: Hasher, db: Db, op: Op, height: nat): Db {
    match op
    case Put(w) => if Upsert(H, db, w, height).None? then db else Upsert(H, db, w, height).value
    case Reorg(from) => Db(db.rht, DeleteFrom(db.roots, from))
  }

  function WriteBlock(w: Write): nat {
    w.block
  }

  function Kept(ws: seq<Write>, from: nat): (r: seq<Write>) {
    B.Keep(ws, WriteBlock, from)
  }

  /** The writes that count: accepted and not reorged away. */
  function Survivors(H: Hasher, db: Db, ws: seq<Write>, op: Op, height: nat): seq<Write> {
    match op
    case Put(w) => if Upsert(H, db, w, height).None? then ws else ws + [w]
    case Reorg(from) => Kept(ws, from)
  }

  ghost predicate Admissible(H: Hasher, db: Db, ws: seq<Write>, op: Op, height: nat) {
    op.Put? ==>
      op.w.index < Pow2(height) && Follows(ws, op.w) && Clean(H, height, db.rht, NewNodes(H, db, op.w, height))
  }

  /** A reorg keeps the writes of the roots that it keeps. */
  lemma KeptCuts(ws: seq<Write>, roots: seq<RootRow>, from: nat)
    requires |ws| == |roots| && InBlockOrder(roots)
    requires forall k: nat {:trigger ws[k]} :: k < |ws| ==> roots[k].block == ws[k].block
    ensures |Kept(ws, from)| == |DeleteFrom(roots, from)| <= |ws| && Kept(ws, from) == ws[..|Kept(ws, from)|]
  {
    hide B.Keep;
    forall k: nat {:trigger ws[k]} {:trigger roots[k]} | k < |ws|
      ensures WriteBlock(ws[k]) == BlockOf(roots[k])
    {
      assert ws[k] == ws[k];
    }
    B.KeepTogether(ws, WriteBlock, roots, BlockOf, from);
  }

  lemma StepGood(H: Hasher, height: nat, db: Db, ws: seq<Write>, op: Op)
    requires Good(H, height, db, ws) && Admissible(H, db, ws, op, height)
    ensures Good(H, height, Step(H, db, op, height), Survivors(H, db, ws, op, height))
  {
    hide Node, Siblings, PutAll, Stored, Clean;
    match op
    case Put(w) =>
      UpsertIsSpec(H, height, db, ws, w);
    case Reorg(from) =>
      var n := |Kept(ws, from)|;
      OrderedIsCertain(db.roots);
      KeptCuts(ws, db.roots, from);
      ReorgHolds(H, height, db, Trail(ws), from);
      DeleteCuts(db.roots, from);
      TrailPrefix(ws, n);
  }

  function Run(H: Hasher, db: Db, ops: seq<Op>, height: nat): Db
    decreases |ops|
  {
    if ops == [] then db else Run(H, Step(H, db, ops[0], height), ops[1..], height)
  }

  function RunSurvivors(H: Hasher, db: Db, ws: seq<Write>, ops: seq<Op>, height: nat): seq<Write>
    decreases |ops|
  {
    if ops == [] then ws
    else RunSurvivors(H, Step(H, db, ops[0], height), Survivors(H, db, ws, ops[0], height), ops[1..], height)
  }

  ghost predicate AdmissibleRun(H: Hasher, db: Db, ws: seq<Write>, ops: seq<Op>, height: nat)
    decreases |ops|
  {
    ops == [] ||
    (&& Admissible(H, db, ws, ops[0], height)
     && AdmissibleRun(H, Step(H, db, ops[0], height), Survivors(H, db, ws, ops[0], height), ops[1..], height))
  }

  /** After any run the last root is the specification root of the leaves the surviving writes leave behind. */
  lemma {:induction false} RunIsSpec(H: Hasher, height: nat, db: Db, ws: seq<Write>, ops: seq<Op>)
    requires Good(H, height, db, ws) && AdmissibleRun(H, db, ws, ops, height)
    ensures var db', ws' := Run(H, db, ops, height), RunSurvivors(H, db, ws, ops, height);
            Good(H, height, db', ws') && LastHash(H, db', height) == Root(H, Applied(ws'), height)
    decreases |ops|
  {
    if ops == [] {
      TrailCurrent(ws);
      CurrentStored(H, height, db, Trail(ws));
    } else {
      StepGood(H, height, db, ws, ops[0]);
      RunIsSpec(H, height, Step(H, db, ops[0], height), Survivors(H, db, ws, ops[0], height), ops[1..]);
    }
  }

  /** So two runs whose surviving writes leave the same leaves behind, in whatever order, have the same last root. */
  lemma OrderIrrelevant(H: Hasher, height: nat, db: Db, ops: seq<Op>, db2: Db, ops2: seq<Op>)
    requires Good(H, height, db, []) && AdmissibleRun(H, db, [], ops, height)
    requires Good(H, height, db2, []) && AdmissibleRun(H, db2, [], ops2, height)
    requires Applied(RunSurvivors(H, db, [], ops, height)) == Applied(RunSurvivors(H, db2, [], ops2, height))
    ensures LastHash(H, Run(H, db, ops, height), height) == LastHash(H, Run(H, db2, ops2, height), height)
  {
    RunIsSpec(H, height, db, [], ops);
    RunIsSpec(H, height, db2, [], ops2);
  }

  class Tree {
    const H: Hasher
    const height: nat
    const zeroHashes: seq<Hash>
    var rht: Rht
    var roots: seq<RootRow>

    ghost predicate Valid() {
      && |zeroHashes| == height + 1
      && (forall h: nat {:trigger zeroHashes[h]} :: h <= height ==> zeroHashes[h] == Zero(H, h))
    }

    constructor (H: Hasher, height: nat, zeroHashes: seq<Hash>, rht: Rht, roots: seq<RootRow>)
      requires |zeroHashes| == height + 1
      requires forall h: nat {:trigger zeroHashes[h]} :: h <= height ==> zeroHashes[h] == Zero(H, h)
      ensures Valid() && this.H == H && this.height == height && this.rht == rht && this.roots == roots
    {
      this.H, this.height, this.zeroHashes, this.rht, this.roots := H, height, zeroHashes, rht, roots;
    }

    /** UpsertLeaf: returns the new root, or None when it cannot be recorded. */
    method UpsertLeaf(block: nat, pos: nat, index: nat, leaf: Hash)
      returns (r: Option<Hash>, ghost answer: Option<RootRow>)
      requires Valid()
      modifies this`rht, this`roots
      ensures Legal(old(roots), answer)
      ensures var was, w := Db(old(rht), old(roots)), Write(block, pos, index, leaf);
              var root := RootHash(H, answer, height);
              var now := UpsertOn(H, was, root, w, height);
              && (r.Some? <==> now.Some?)
              && Db(rht, roots) == (if now.Some? then now.value else was)
              && (r.Some? ==> r.value == RowOn(H, was.rht, root, w, height).hash)
    {
      hide Siblings, Legal, Climb, Path, PutAll;
      var last := GetLastRoot(roots);
      answer := last;
      var rootHash := zeroHashes[height];
      if last.Some? {
        rootHash := last.value.hash;
      }
      var siblings, usedZeroHashes := GetSiblings(H, rht, zeroHashes, index, rootHash, height);
      var currentChildHash, newNodes := ClimbNodes(index, leaf, siblings);
      if HasRoot(roots, currentChildHash) {
        return None, answer;
      }
      roots := roots + [RootRow(currentChildHash, index, block, pos)];
      rht := StoreNodes(H, rht, newNodes);
      return Some(currentChildHash), answer;
    }

    /** The loop of UpsertLeaf: the nodes on the path of the leaf. */
    method ClimbNodes(index: nat, leaf: Hash, siblings: seq<Hash>) returns (currentChildHash: Hash, newNodes: seq<Pair>)
      requires |siblings| == height
      ensures currentChildHash == Climb(H, siblings, leaf, index, height)
      ensures newNodes == Path(H, siblings, leaf, index, height)
    {
      currentChildHash, newNodes := leaf, [];
      for h := 0 to height
        invariant currentChildHash == Climb(H, siblings, leaf, index, h)
        invariant newNodes == Path(H, siblings, leaf, index, h)
      {
        var parent := if IsRight(index, h) then (siblings[h], currentChildHash) else (currentChildHash, siblings[h]);
        currentChildHash := H(parent.0, parent.1);
        newNodes := newNodes + [parent];
      }
    }
  }
}
