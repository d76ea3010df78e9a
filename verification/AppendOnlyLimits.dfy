/**
 Where the append-only tree goes wrong, and exactly when: a rollback that keeps the cache, a rebuild on roots
 with the same block and position, and a last index that outlives a reorg.
 */
module AppendOnlyLimits {
  import opened Wrappers
  import opened Merkle
  import opened NodeTable
  import opened AppendOnlyTree
  import B = BlockRows

  // ----- what a collision-free hash gives -----

  lemma {:induction false} InjectiveCleanAll(H: Hasher, height: nat, db: Db, mem: Mem, block: nat, adds: seq<Add>)
    requires Injective(H)
    ensures CleanAll(H, height, db, mem, block, adds)
    decreases |adds|
  {
    hide AddLeaf, Clean, Injective, NextPath, Prepared;
    if adds != [] {
      var a := adds[0];
      var r := AddLeaf(H, db, mem, block, a.pos, a.index, a.hash);
      InjectiveClean(H, height, db.rht, NextPath(H, Prepared(db, mem, a.index, height).1, a.index, a.hash));
      InjectiveCleanAll(H, height, r.db, r.mem, block, adds[1..]);
    }
  }

  /** A climb from a leaf that is not zero never ends in the root of a tree without a leaf there. */
  lemma ClimbIsNew(H: Hasher, m: Leaves, sib: seq<Hash>, leaf: Hash, i: nat, height: nat)
    requires Injective(H) && |sib| == height && i < Pow2(height) && leaf != 0 && LeafAt(m, i) == 0
    ensures Climb(H, sib, leaf, i, height) != Root(H, m, height)
  {
    hide Node, Climb, Injective, Pow2;
    var own := seq(height, k requires 0 <= k < height => Node(H, m, k, Sibling(Up(i, k))));
    ClimbToRoot(H, m, own, i, height);
    if Climb(H, sib, leaf, i, height) == Root(H, m, height) {
      ClimbBinds(H, sib, own, leaf, 0, i, height);
    }
  }

  /** So a leaf that is not zero is always accepted. */
  lemma NonzeroAccepted(H: Hasher, height: nat, s: Machine, es: seq<Entry>, e: Entry)
    requires Injective(H) && Good(H, height, s, es) && |es| < Pow2(height) && Follows(es, e) && e.hash != 0
    ensures var r := AddLeaf(H, s.db, s.mem, e.block, e.pos, |es|, e.hash);
            && r.ok && Good(H, height, Machine(r.db, r.mem), es + [e]) && r.mem.lastIndex == |es|
            && r.mem.cache == ExactCache(H, Hashes(es + [e]), height)
  {
    hide Node, Holds, Injective, Pow2, ExactCache, AddLeaf, Frontier;
    InjectiveClean(H, height, s.db.rht, NextPath(H, Prepared(s.db, s.mem, |es|, height).1, |es|, e.hash));
    AddLeafGood(H, height, s, es, e);
    var n, all := |es|, Listed(Hashes(es + [e]));
    forall k: nat {:trigger s.db.roots[k]} | k < |es|
      ensures s.db.roots[k].hash != Root(H, all, height)
    {
      var m := Listed(Hashes(es[..k + 1]));
      if Root(H, m, height) == Root(H, all, height) {
        RootBinds(H, m, all, height, n);
      }
    }
  }

  ghost predicate AllNonzero(adds: seq<Add>) {
    forall k: nat {:trigger adds[k]} :: k < |adds| ==> adds[k].hash != 0
  }

  lemma {:induction false} AllAccepted(H: Hasher, height: nat, s: Machine, es: seq<Entry>, block: nat, adds: seq<Add>)
    requires Injective(H) && Good(H, height, s, es) && InOrder(es, block, adds, height) && AllNonzero(adds)
    ensures AddAll(H, s.db, s.mem, block, adds).ok
    decreases |adds|
  {
    hide Good, AddLeaf, Injective, Follows, Pow2, ExactCache;
    if adds != [] {
      var e := Entry(block, adds[0].pos, adds[0].hash);
      NonzeroAccepted(H, height, s, es, e);
      var r := AddLeaf(H, s.db, s.mem, block, adds[0].pos, adds[0].index, adds[0].hash);
      AllAccepted(H, height, Machine(r.db, r.mem), es + [e], block, adds[1..]);
    }
  }

  // ----- exactly when a rollback is harmless -----

  /** The cache of an up-to-date tree. */
  function StartCache(H: Hasher, leaves: seq<Hash>, height: nat): (r: seq<Hash>)
    ensures |r| == height
  {
    if leaves == [] then Blank(height) else ExactCache(H, leaves, height)
  }

  /** The cache after a block tried to add `tried` from index i on, which a rollback does not undo. */
  function RolledCache(H: Hasher, cache: seq<Hash>, i: nat, tried: seq<Hash>): (r: seq<Hash>)
    ensures |r| == |cache|
  {
    if tried == [] then cache
    else
      var n := |tried| - 1;
      Recached(H, RolledCache(H, cache, i, tried[..n]), i + n, tried[n])
  }

  lemma {:induction false} RolledFront(H: Hasher, cache: seq<Hash>, i: nat, x: Hash, rest: seq<Hash>)
    ensures RolledCache(H, cache, i, [x] + rest) == RolledCache(H, Recached(H, cache, i, x), i + 1, rest)
    decreases |rest|
  {
    hide Recached;
    var all, n := [x] + rest, |rest|;
    RolledStep(H, cache, i, all);
    if n == 0 {
      assert all[..0] == [];
    } else {
      assert all[..n] == [x] + rest[..n - 1];
      RolledFront(H, cache, i, x, rest[..n - 1]);
      RolledStep(H, Recached(H, cache, i, x), i + 1, rest);
    }
  }

  /** The leaves that a block handed to the tree: all of them, or up to the one that was refused. */
  function Tried(adds: seq<Add>, r: BlockResult): (t: seq<Hash>)
    requires r.added <= |adds| && (!r.ok ==> r.added < |adds|)
  {
    AddHashes(adds[..if r.ok then |adds| else r.added + 1])
  }

  function AddHashes(adds: seq<Add>): (t: seq<Hash>)
    ensures |t| == |adds| && forall k: nat {:trigger t[k]} :: k < |t| ==> t[k] == adds[k].hash
  {
    seq(|adds|, k requires 0 <= k < |adds| => adds[k].hash)
  }

  /** With memory up to date, that is the cache that AddAll leaves, whether or not it succeeds. */
  lemma {:induction false} AddAllCache(H: Hasher, db: Db, mem: Mem, block: nat, adds: seq<Add>)
    requires forall k: nat {:trigger adds[k]} :: k < |adds| ==> adds[k].index == mem.lastIndex + 1 + k
    requires adds != [] ==> mem.lastIndex >= -1
    ensures var r := AddAll(H, db, mem, block, adds);
            && r.mem.lastIndex == mem.lastIndex + r.added
            && (adds != [] ==> r.mem.cache == RolledCache(H, mem.cache, mem.lastIndex + 1, Tried(adds, r)))
    decreases |adds|
  {
    hide Recached, RolledCache, Climb, Met, HasRoot, Written;
    if adds != [] {
      var a, rest := adds[0], adds[1..];
      var i: nat := mem.lastIndex + 1;
      assert a.index == i;
      var one := AddLeaf(H, db, mem, block, a.pos, a.index, a.hash);
      assert one.mem.cache == Recached(H, mem.cache, i, a.hash);
      var r := AddAll(H, db, mem, block, adds);
      if !one.ok {
        assert Tried(adds, r) == [a.hash] + [];
        RolledFront(H, mem.cache, i, a.hash, []);
        RolledNone(H, one.mem.cache, i + 1, []);
      } else {
        assert forall k: nat {:trigger rest[k]} :: k < |rest| ==> rest[k] == adds[k + 1];
        AddAllCache(H, one.db, one.mem, block, rest);
        var more := AddAll(H, one.db, one.mem, block, rest);
        assert Tried(adds, r) == [a.hash] + Tried(rest, more);
        RolledFront(H, mem.cache, i, a.hash, Tried(rest, more));
        if rest == [] {
          RolledNone(H, one.mem.cache, i + 1, Tried(rest, more));
        }
      }
    }
  }

  /** After the rollback, the leaf that takes the index again still gets the right root. */
  ghost predicate RightAfter(H: Hasher, height: nat, leaves: seq<Hash>, tried: seq<Hash>, leaf: Hash) {
    var cache := RolledCache(H, StartCache(H, leaves, height), |leaves|, tried);
    Climb(H, Met(H, cache, |leaves|), leaf, |leaves|, height) == Root(H, Listed(leaves + [leaf]), height)
  }

  lemma StartServes(H: Hasher, leaves: seq<Hash>, height: nat)
    ensures Frontier(H, Listed(leaves), StartCache(H, leaves, height), |leaves|)
  {
    if leaves == [] {
      BlankIsFrontier(H, Blank(height));
    } else {
      ExactIsFrontier(H, leaves, height);
    }
  }

  lemma {:induction false} RolledIsExact(H: Hasher, leaves: seq<Hash>, cache: seq<Hash>, tried: seq<Hash>)
    requires Frontier(H, Listed(leaves), cache, |leaves|) && tried != []
    ensures RolledCache(H, cache, |leaves|, tried) == ExactCache(H, leaves + tried, |cache|)
    decreases |tried|
  {
    hide Node, Frontier, Recached, ExactCache, Listed, RolledCache;
    var n := |tried| - 1;
    var before, mid := leaves + tried[..n], RolledCache(H, cache, |leaves|, tried[..n]);
    if n == 0 {
      RolledNone(H, cache, |leaves|, tried[..n]);
      assert before == leaves;
    } else {
      RolledIsExact(H, leaves, cache, tried[..n]);
      ExactIsFrontier(H, before, |cache|);
    }
    RecachedIsExact(H, before, mid, tried[n]);
    RolledStep(H, cache, |leaves|, tried);
    assert before + [tried[n]] == leaves + tried;
  }

  lemma RolledNone(H: Hasher, cache: seq<Hash>, i: nat, tried: seq<Hash>)
    requires tried == []
    ensures RolledCache(H, cache, i, tried) == cache
  {}

  lemma RolledStep(H: Hasher, cache: seq<Hash>, i: nat, tried: seq<Hash>)
    requires tried != []
    ensures var n := |tried| - 1;
            RolledCache(H, cache, i, tried) == Recached(H, RolledCache(H, cache, i, tried[..n]), i + n, tried[n])
  {
    hide Recached;
  }

  /** A cache that still serves gives the right root. */
  lemma ServedIsRight(H: Hasher, height: nat, leaves: seq<Hash>, cache: seq<Hash>, leaf: Hash)
    requires |cache| == height && |leaves| < Pow2(height) && Frontier(H, Listed(leaves), cache, |leaves|)
    ensures Climb(H, Met(H, cache, |leaves|), leaf, |leaves|, height) == Root(H, Listed(leaves + [leaf]), height)
  {
    MetAreSiblings(H, leaves, cache);
    ListedAppend(leaves, leaf);
    UpIsZero(|leaves|, height);
    ClimbInsert(H, Listed(leaves), Met(H, cache, |leaves|), |leaves|, leaf, height);
  }

  function Repeat(v: Hash, n: nat): (r: seq<Hash>)
    ensures |r| == n
    ensures forall k: nat {:trigger r[k]} :: k < n ==> r[k] == v
  {
    seq(n, _ => v)
  }

  /** Beyond the bound, with a collision-free hash: i ones stored, n twos rolled back, and any next root is wrong. */
  lemma UnsafeIsWrong(H: Hasher, height: nat, i: nat, n: nat, h: nat, leaf: Hash)
    requires Injective(H) && n > 0 && i < Pow2(height) && h < height
    requires IsRight(i, h) && Up(i + n - 1, h) != Up(i, h)
    ensures !RightAfter(H, height, Repeat(1, i), Repeat(2, n), leaf)
  {
    hide Node, Climb, RolledCache, StartCache, Pow2, Injective, Up;
    var leaves, tried := Repeat(1, i), Repeat(2, n);
    var start := StartCache(H, leaves, height);
    var rolled := RolledCache(H, start, i, tried);
    StartServes(H, leaves, height);
    RolledIsExact(H, leaves, start, tried);
    ServedIsRight(H, height, leaves, start, leaf);
    if RightAfter(H, height, leaves, tried, leaf) {
      ClimbBinds(H, Met(H, rolled, i), Met(H, start, i), leaf, leaf, i, height);
      assert Met(H, rolled, i)[..height][h] == Met(H, start, i)[..height][h];
      assert rolled[h] == start[h];
    }
    OverwrittenDiffers(H, i, n, h);
  }

  /** The node left in the cache starts with a two, the node that was there starts with a one. */
  lemma OverwrittenDiffers(H: Hasher, i: nat, n: nat, h: nat)
    requires Injective(H) && n > 0 && IsRight(i, h) && Up(i + n - 1, h) != Up(i, h)
    ensures Node(H, Listed(Repeat(1, i) + Repeat(2, n)), h, Even(Up(i + n - 1, h)))
            != Node(H, Listed(Repeat(1, i)), h, Up(i, h) - 1)
  {
    hide Node;
    var j := i + n - 1;
    var p, q := Up(i, h) - 1, Even(Up(j, h));
    var m, m' := Listed(Repeat(1, i)), Listed(Repeat(1, i) + Repeat(2, n));
    UpMonotone(i, j, h);
    FirstLeafUp(h, p);
    FirstLeafUp(h, q);
    if FirstLeaf(h, p) >= i {
      UpMonotone(i, FirstLeaf(h, p), h);
    }
    if FirstLeaf(h, q) < i {
      UpMonotone(FirstLeaf(h, q), i, h);
    }
    FirstLeafIsFirst(h, Up(j, h), j);
    FirstLeafAtMost(h, q, Up(j, h));
    assert LeafAt(m, FirstLeaf(h, p)) == 1;
    assert LeafAt(m', FirstLeaf(h, q)) == 2;
    if Node(H, m', h, q) == Node(H, m, h, p) {
      NodeBindsFirst(H, m', m, h, q, p);
    }
  }

  // ----- the same on the tree -----

  /** A tree fed nothing but leaves that are not zero. */
  lemma {:induction false} FedGood(H: Hasher, height: nat, es: seq<Entry>)
    requires Injective(H) && |es| <= Pow2(height) && B.Rising(es, EntryBlock)
    requires forall k: nat {:trigger es[k]} :: k < |es| ==> es[k].hash != 0
    ensures Good(H, height, Feed(H, es, height), es)
    ensures es != [] ==> Feed(H, es, height).mem == Mem(ExactCache(H, Hashes(es), height), |es| - 1)
    decreases |es|
  {
    hide Good, AddLeaf, Injective, Pow2, ExactCache;
    if es == [] {
      InjectiveClean(H, height, map[], []);
      FreshGood(H, height);
    } else {
      var n := |es| - 1;
      assert es[..n] + [es[n]] == es;
      assert n > 0 ==> EntryBlock(es[n - 1]) <= EntryBlock(es[n]);
      B.RisingFront(es, EntryBlock);
      FedGood(H, height, es[..n]);
      NonzeroAccepted(H, height, Feed(H, es[..n], height), es[..n], es[n]);
    }
  }

  function Ones(i: nat): (es: seq<Entry>)
    ensures |es| == i && forall k: nat {:trigger es[k]} :: k < i ==> es[k] == Entry(0, k, 1)
  {
    seq(i, k requires k >= 0 => Entry(0, k, 1))
  }

  function Twos(i: nat, n: nat): (adds: seq<Add>)
    ensures |adds| == n && forall k: nat {:trigger adds[k]} :: k < n ==> adds[k] == Add(k, i + k, 2)
  {
    seq(n, k requires k >= 0 => Add(k, i + k, 2))
  }

  lemma {:induction false} AddsInOrder(es: seq<Entry>, block: nat, adds: seq<Add>, height: nat)
    requires |es| + |adds| <= Pow2(height) && (es != [] ==> es[|es| - 1].block <= block)
    requires forall k: nat {:trigger adds[k]} :: k < |adds| ==> adds[k].index == |es| + k
    ensures InOrder(es, block, adds, height)
    decreases |adds|
  {
    hide Pow2;
    if adds != [] {
      var rest := adds[1..];
      assert adds[0].index == |es|;
      assert forall k: nat {:trigger rest[k]} :: k < |rest| ==> rest[k] == adds[k + 1];
      AddsInOrder(es + [Entry(block, adds[0].pos, adds[0].hash)], block, rest, height);
    }
  }

  /** The machine and the block of the failure: i ones stored, and a block of n twos that is rolled back. */
  function Victim(H: Hasher, height: nat, i: nat): Machine {
    Feed(H, Ones(i), height)
  }

  function RolledBlock(i: nat, n: nat): Op {
    Block(1, Twos(i, n), LaterStepFails)
  }

  lemma VictimRolled(H: Hasher, height: nat, i: nat, n: nat)
    requires Injective(H) && i > 0 && n > 0 && i + n <= Pow2(height)
    ensures var s, op := Victim(H, height, i), RolledBlock(i, n);
            && Rollback(H, height, s, Ones(i), op, i, n)
            && Step(H, s, op) == Machine(s.db,
               Mem(RolledCache(H, StartCache(H, Repeat(1, i), height), i, Repeat(2, n)), i - 1))
  {
    hide Good, Injective, Pow2, ExactCache, RolledCache, AddAll, Feed, InOrder;
    var s, es, adds := Victim(H, height, i), Ones(i), Twos(i, n);
    FedGood(H, height, es);
    AddsInOrder(es, 1, adds, height);
    AllAccepted(H, height, s, es, 1, adds);
    AddAllCache(H, s.db, s.mem, 1, adds);
    var r := AddAll(H, s.db, s.mem, 1, adds);
    assert Hashes(es) == Repeat(1, i);
    assert Tried(adds, r) == Repeat(2, n);
  }

  /** A block of n leaves from index i on, all taken by the tree and then rolled back. */
  ghost predicate Rollback(H: Hasher, height: nat, s: Machine, es: seq<Entry>, op: Op, i: nat, n: nat) {
    && Good(H, height, s, es) && |es| == i
    && op.Block? && op.fate.LaterStepFails? && |op.adds| == n && InOrder(es, op.block, op.adds, height)
    && AddAll(H, s.db, s.mem, op.block, op.adds).ok
  }

  /** If the tree records the leaf that takes the index again, it records the right root. */
  ghost predicate NextRight(H: Hasher, height: nat, s: Machine, es: seq<Entry>, op: Op, e: Entry) {
    var t := Step(H, s, op);
    var r := AddLeaf(H, t.db, t.mem, e.block, e.pos, |es|, e.hash);
    r.ok ==> r.db.roots == s.db.roots + [RootRow(Root(H, Listed(Hashes(es + [e])), height), |es|, e.block, e.pos)]
  }

  /** Within the bound every tree, every block and every next leaf. */
  lemma SafeRollback(H: Hasher, height: nat, s: Machine, es: seq<Entry>, op: Op, e: Entry, i: nat, n: nat)
    requires Injective(H) && n > 0 && i + n <= Pow2(height) && RollbackSafe(i, i + n - 1, height)
    requires Rollback(H, height, s, es, op, i, n) && Follows(es, e)
    ensures NextRight(H, height, s, es, op, e)
  {
    hide Node, Injective, Pow2, AddAll, InOrder, RollbackSafe, AddLeaf, Holds, Frontier, Root, CleanAll, Rows;
    InjectiveCleanAll(H, height, s.db, s.mem, op.block, op.adds);
    StepGood(H, height, s, es, op);
    var t := Step(H, s, op);
    InjectiveClean(H, height, t.db.rht, NextPath(H, Prepared(t.db, t.mem, |es|, height).1, |es|, e.hash));
    AddLeafGood(H, height, t, es, e);
    RowsPush(H, es, e, height);
  }

  /**
   Beyond it, after the rollback of the twos, the tree of ones records a wrong root for the next leaf, and it
   does record it whenever the leaf is not zero.
   */
  lemma UnsafeRollback(H: Hasher, height: nat, i: nat, n: nat, leaf: Hash)
    requires Injective(H) && i > 0 && n > 0 && i + n <= Pow2(height) && !RollbackSafe(i, i + n - 1, height)
    ensures var t := Step(H, Victim(H, height, i), RolledBlock(i, n));
            var r := AddLeaf(H, t.db, t.mem, 1, 0, i, leaf);
            && (leaf != 0 ==> r.ok)
            && (r.ok ==> |r.db.roots| == i + 1 && r.db.roots[i].hash != Root(H, Listed(Repeat(1, i) + [leaf]), height))
  {
    hide Good, Injective, Pow2, RolledCache, StartCache, Climb, Node, Path, PutAll, Recached, Met;
    var s, es := Victim(H, height, i), Ones(i);
    var t := Step(H, s, RolledBlock(i, n));
    VictimRolled(H, height, i, n);
    var h: nat :| h < height && IsRight(i, h) && Up(i + n - 1, h) != Up(i, h);
    UnsafeIsWrong(H, height, i, n, h, leaf);
    OnesRoots(H, height, s, i);
    if leaf != 0 {
      forall k: nat {:trigger s.db.roots[k]} | k < |s.db.roots|
        ensures s.db.roots[k].hash != Climb(H, Met(H, t.mem.cache, i), leaf, i, height)
      {
        ClimbIsNew(H, Listed(Hashes(es[..k + 1])), Met(H, t.mem.cache, i), leaf, i, height);
      }
    }
  }

  lemma OnesRoots(H: Hasher, height: nat, s: Machine, i: nat)
    requires Good(H, height, s, Ones(i))
    ensures |s.db.roots| == i
    ensures forall k: nat {:trigger s.db.roots[k]} :: k < i ==>
              s.db.roots[k].hash == Root(H, Listed(Hashes(Ones(i)[..k + 1])), height)
  {
    hide Root, Holds;
  }

  /**
   The rollback of a block that tried n leaves from index i is harmless, for every tree, every block and every
   next leaf, exactly when i is zero or n does not exceed the largest power of two that divides i.
   */
  lemma RollbackHarmlessIff(H: Hasher, height: nat, i: nat, n: nat)
    requires Injective(H) && n > 0 && i + n <= Pow2(height)
    ensures (forall s: Machine, es: seq<Entry>, op: Op, e: Entry ::
               Rollback(H, height, s, es, op, i, n) && Follows(es, e) ==> NextRight(H, height, s, es, op, e))
            <==> i == 0 || n <= LowBit(i)
  {
    hide Rollback, NextRight, Follows, Injective, Pow2, LowBit, Feed, Up;
    var j := i + n - 1;
    if i == 0 {
      forall h: nat
        ensures !IsRight(0, h)
      {
        UpIsZero(0, h);
      }
      assert RollbackSafe(i, j, height);
    } else {
      RollbackSafeIff(i, j, height);
    }
    if RollbackSafe(i, j, height) {
      forall s: Machine, es: seq<Entry>, op: Op, e: Entry | Rollback(H, height, s, es, op, i, n) && Follows(es, e)
        ensures NextRight(H, height, s, es, op, e)
      {
        SafeRollback(H, height, s, es, op, e, i, n);
      }
    } else {
      var s, es, op, e := Victim(H, height, i), Ones(i), RolledBlock(i, n), Entry(1, 0, 3);
      VictimRolled(H, height, i, n);
      VictimWrong(H, height, i, n);
      assert Rollback(H, height, s, es, op, i, n) && Follows(es, e) && !NextRight(H, height, s, es, op, e);
    }
  }

  lemma VictimWrong(H: Hasher, height: nat, i: nat, n: nat)
    requires Injective(H) && i > 0 && n > 0 && i + n <= Pow2(height) && !RollbackSafe(i, i + n - 1, height)
    ensures !NextRight(H, height, Victim(H, height, i), Ones(i), RolledBlock(i, n), Entry(1, 0, 3))
    ensures Follows(Ones(i), Entry(1, 0, 3))
  {
    hide Root, AddLeaf, Step, Feed, Pow2, Injective, RollbackSafe;
    UnsafeRollback(H, height, i, n, 3);
    assert Hashes(Ones(i) + [Entry(1, 0, 3)]) == Repeat(1, i) + [3];
    VictimRolled(H, height, i, n);
    OnesRoots(H, height, Victim(H, height, i), i);
  }

  // ----- roots with the same block and position -----

  /** The cache and the index that a rebuild should leave. */
  ghost predicate RebuiltRight(H: Hasher, height: nat, es: seq<Entry>, built: (bool, Mem)) {
    && built.0 && built.1.lastIndex == |es| - 1
    && built.1.cache == StartCache(H, Hashes(es), height)
  }

  /** A rebuild is right whatever the query may answer exactly when every other root is strictly before the newest. */
  lemma RebuildRightIff(H: Hasher, height: nat, db: Db, mem: Mem, es: seq<Entry>)
    requires GoodDb(H, height, db, es)
    ensures (forall last :: Legal(db.roots, last) ==>
            RebuiltRight(H, height, es, InitCacheFrom(db.rht, last, mem, height)))
            <==> Certain(db.roots)
  {
    hide Holds, Lefts, ExactCache, Rows, Frontier, Legal;
    RebuildIsExact(H, height, db, mem, es);
    LastIsNewestIff(db.roots);
    if !Certain(db.roots) {
      var r := OtherLast(db.roots);
      OtherRow(H, height, db, es, r);
    }
  }

  lemma OtherRow(H: Hasher, height: nat, db: Db, es: seq<Entry>, r: RootRow)
    requires GoodDb(H, height, db, es) && es != [] && MayBeLast(db.roots, r) && r != db.roots[|es| - 1]
    ensures Legal(db.roots, Some(r)) && r.index < |es| - 1
  {
    hide Holds;
    var k: nat :| k < |db.roots| && db.roots[k] == r;
  }

  /**
   Two bridges of one block give two roots at one position. After a restart the query may answer the first of
   them: the rebuild then stops at leaf 0, and the next leaf, of index 2, is refused.
   */
  lemma TiedRebuildRefuses(H: Hasher, height: nat, block: nat, a: Hash, b: Hash, e: Entry)
    requires Injective(H) && height >= 2 && a != 0 && b != 0
    ensures var op := Block(block, [Add(0, 0, a), Add(0, 1, b)], Commits);
            var s := Step(H, Step(H, Fresh(height), op), Restart);
            && |s.db.roots| == 2 && !Certain(s.db.roots)
            && exists last :: && Legal(s.db.roots, last)
                              && InitCacheFrom(s.db.rht, last, s.mem, height).1.lastIndex == 0
                              && !AddLeafFrom(H, s.db, last, s.mem, e.block, e.pos, 2, e.hash).ok
  {
    hide AddAll, Lefts, Injective, GoodDb;
    var adds := [Add(0, 0, a), Add(0, 1, b)];
    TwoFit(height);
    FirstBlock(H, height, block, adds);
    var s := Step(H, Step(H, Fresh(height), Block(block, adds, Commits)), Restart);
    TwoRows(H, height, s.db, block, adds);
    var last := Some(s.db.roots[0]);
    assert Legal(s.db.roots, last);
    assert InitCacheFrom(s.db.rht, last, s.mem, height).1.lastIndex == 0;
  }

  /** A first block of leaves that are not zero. */
  lemma FirstBlock(H: Hasher, height: nat, block: nat, adds: seq<Add>)
    requires Injective(H) && adds != [] && |adds| <= Pow2(height) && AllNonzero(adds)
    requires forall k: nat {:trigger adds[k]} :: k < |adds| ==> adds[k].index == k
    ensures var s := Step(H, Fresh(height), Block(block, adds, Commits));
            && GoodDb(H, height, s.db, Entries(block, adds))
            && s.mem.lastIndex == |adds| - 1 && |s.mem.cache| == height
  {
    hide AddAll, Injective, InOrder, Pow2, GoodDb;
    InjectiveClean(H, height, map[], []);
    FreshGood(H, height);
    AddsInOrder([], block, adds, height);
    AllAccepted(H, height, Fresh(height), [], block, adds);
    InjectiveCleanAll(H, height, Fresh(height).db, Fresh(height).mem, block, adds);
    AddAllGood(H, height, Fresh(height), [], block, adds);
    assert [] + Entries(block, adds) == Entries(block, adds);
  }

  lemma TwoFit(height: nat)
    requires height >= 2
    ensures Pow2(height) >= 4
  {
    assert Pow2(height) == 2 * Pow2(height - 1) && Pow2(height - 1) == 2 * Pow2(height - 2);
  }

  lemma TwoRows(H: Hasher, height: nat, db: Db, block: nat, adds: seq<Add>)
    requires |adds| == 2 && adds[0].pos == adds[1].pos && GoodDb(H, height, db, Entries(block, adds))
    ensures |db.roots| == 2 && MayBeLast(db.roots, db.roots[0]) && db.roots[0].index == 0 && !Certain(db.roots)
  {
    hide Holds, Root;
    var x, y := db.roots[0], db.roots[1];
    assert db.roots == [x, y] && x.index == 0 && y.index == 1;
    assert x in db.roots;
  }

  // ----- a last index that outlives a reorg -----

  /** n leaves are committed and reorged away. The tree then takes index n, although no leaf is left. */
  lemma StaleIndexAccepted(H: Hasher, height: nat, block: nat, adds: seq<Add>, e: Entry)
    requires Injective(H) && adds != [] && |adds| < Pow2(height) && AllNonzero(adds)
    requires forall k: nat {:trigger adds[k]} :: k < |adds| ==> adds[k].index == k
    ensures var s := Step(H, Step(H, Fresh(height), Block(block, adds, Commits)), Reorg(block));
            && s.db.roots == []
            && AddLeaf(H, s.db, s.mem, e.block, e.pos, |adds|, e.hash).ok
  {
    hide AddAll, Lefts, Injective, GoodDb, Pow2, Climb, Met, Recached, DeleteFrom;
    FirstBlock(H, height, block, adds);
    OneBlockGone(H, height, Step(H, Fresh(height), Block(block, adds, Commits)).db, block, adds);
  }

  lemma OneBlockGone(H: Hasher, height: nat, db: Db, block: nat, adds: seq<Add>)
    requires GoodDb(H, height, db, Entries(block, adds))
    ensures DeleteFrom(db.roots, block) == []
  {
    hide Root, DeleteFrom;
    DeleteCuts(db.roots, block);
    assert db.roots != [] ==> db.roots[0].block == block;
  }
}
