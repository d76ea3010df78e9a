/**
 The append-only tree: the two tables plus an in-memory "last left" cache and the last index.
 Both live outside the database transaction. A rollback restores the index but not the cache.
 */
module AppendOnlyTree {
  import opened Merkle
  import opened NodeTable
  import opened Wrappers
  import B = BlockRows

  /** The two fields of the tree object. lastIndex is -2 before the cache is first built. */
  datatype Mem = Mem(cache: seq<Hash>, lastIndex: int)

  datatype Machine = Machine(db: Db, mem: Mem)

  function Blank(height: nat): seq<Hash> {
    seq(height, _ => 0)
  }

  // ----- the cache -----

  function Even(p: nat): nat {
    p - p % 2
  }

  /** The cache as a function of the leaves: on each level the last node that is a left child. */
  function ExactCache(H: Hasher, leaves: seq<Hash>, height: nat): (cache: seq<Hash>)
    requires leaves != []
    ensures |cache| == height
    ensures forall h: nat {:trigger cache[h]} :: h < height ==>
              cache[h] == Node(H, Listed(leaves), h, Even(Up(|leaves| - 1, h)))
  {
    seq(height, h requires h >= 0 => Node(H, Listed(leaves), h, Even(Up(|leaves| - 1, h))))
  }

  /** The cache after leaf i: renewed on the levels where i is on the left. */
  function Recached(H: Hasher, cache: seq<Hash>, i: nat, leaf: Hash): (r: seq<Hash>)
    ensures |r| == |cache|
    ensures forall h: nat {:trigger r[h]} :: h < |cache| ==>
              r[h] == if IsRight(i, h) then cache[h] else Climb(H, Met(H, cache, i), leaf, i, h)
  {
    seq(|cache|, h requires 0 <= h < |cache| =>
      if IsRight(i, h) then cache[h] else Climb(H, Met(H, cache, i), leaf, i, h))
  }

  /** The left children on the path of leaf i, from the node `cur` of level h down; None if a node is missing. */
  function Lefts(rht: Rht, cur: Hash, i: nat, h: nat): (r: Option<seq<Hash>>)
    ensures r.Some? ==> |r.value| == h
    decreases h
  {
    if h == 0 then Some([])
    else if cur !in rht then None
    else
      var below := Lefts(rht, if IsRight(i, h - 1) then rht[cur].1 else rht[cur].0, i, h - 1);
      if below.None? then None else Some(below.value + [rht[cur].0])
  }

  lemma ExactIsFrontier(H: Hasher, leaves: seq<Hash>, height: nat)
    requires leaves != []
    ensures Frontier(H, Listed(leaves), ExactCache(H, leaves, height), |leaves|)
  {
    hide Node, ExactCache;
    forall h: nat | h < height && IsRight(|leaves|, h)
      ensures ExactCache(H, leaves, height)[h] == Node(H, Listed(leaves), h, Up(|leaves|, h) - 1)
    {
      UpNext(|leaves| - 1, h);
    }
  }

  lemma BlankIsFrontier(H: Hasher, cache: seq<Hash>)
    ensures Frontier(H, Listed([]), cache, 0)
  {
    forall h: nat | h < |cache|
      ensures !IsRight(0, h)
    {
      UpIsZero(0, h);
    }
  }

  /** Whatever served the new leaf, the cache after it is exact. */
  lemma RecachedIsExact(H: Hasher, leaves: seq<Hash>, cache: seq<Hash>, leaf: Hash)
    requires Frontier(H, Listed(leaves), cache, |leaves|)
    ensures Recached(H, cache, |leaves|, leaf) == ExactCache(H, leaves + [leaf], |cache|)
  {
    hide Node;
    var n, m := |leaves|, Listed(leaves);
    var next := Recached(H, cache, n, leaf);
    ListedAppend(leaves, leaf);
    MetAreSiblings(H, leaves, cache);
    forall h: nat | h < |cache|
      ensures next[h] == ExactCache(H, leaves + [leaf], |cache|)[h]
    {
      if IsRight(n, h) {
        NodeElsewhere(H, m, n, leaf, h, Up(n, h) - 1);
      } else {
        ClimbInsert(H, m, Met(H, cache, n), n, leaf, h);
      }
    }
  }

  /** Walking down a stored tree collects the left children. */
  lemma {:induction false} LeftsRead(H: Hasher, height: nat, rht: Rht, m: Leaves, cur: Hash, i: nat, h: nat)
    requires EmptyNodes(H, height, rht) && h <= height && Stored(H, rht, m, h, Up(i, h)) && i in m
    requires cur == Node(H, m, h, Up(i, h))
    ensures Lefts(rht, cur, i, h).Some?
    ensures forall k: nat {:trigger Lefts(rht, cur, i, h).value[k]} :: k < h ==>
              Lefts(rht, cur, i, h).value[k] == Node(H, m, k, Even(Up(i, k)))
    decreases h
  {
    hide Node;
    if h > 0 {
      assert !Vacant(m, h, Up(i, h));
      ReadNode(H, height, rht, m, h - 1, Up(i, h));
      StoredChild(H, rht, m, h - 1, Up(i, h), Up(i, h - 1));
      LeftsRead(H, height, rht, m, Node(H, m, h - 1, Up(i, h - 1)), i, h - 1);
      var q := Up(i, h - 1);
      assert q == 2 * (q / 2) + q % 2 && Even(q) == 2 * Up(i, h);
    }
  }

  /**
   initCache, given what the query for the last root answers: what it leaves in memory, and whether it
   succeeds. The index is set before the walk.
   */
  function InitCacheFrom(rht: Rht, last: Option<RootRow>, mem: Mem, height: nat): (bool, Mem) {
    if last.None? then (true, Mem(Blank(height), -1))
    else
      var lefts := Lefts(rht, last.value.hash, last.value.index, height);
      if lefts.None? then (false, mem.(lastIndex := last.value.index)) else (true, Mem(lefts.value, last.value.index))
  }

  /** The same when the query answers the row written last. */
  function InitCache(db: Db, mem: Mem, height: nat): (bool, Mem) {
    InitCacheFrom(db.rht, Newest(db.roots), mem, height)
  }

  // ----- adding a leaf -----

  datatype AddResult = AddResult(ok: bool, db: Db, mem: Mem)

  /** Memory with which the leaf is added: rebuilt when the index does not follow. */
  function PreparedFrom(rht: Rht, last: Option<RootRow>, mem: Mem, index: nat, height: nat): (bool, Mem) {
    if index == mem.lastIndex + 1 then (true, mem) else InitCacheFrom(rht, last, mem, height)
  }

  function Prepared(db: Db, mem: Mem, index: nat, height: nat): (bool, Mem) {
    PreparedFrom(db.rht, Newest(db.roots), mem, index, height)
  }

  /** One AddLeaf inside a transaction, with memory as it is or rebuilt. */
  function AddLeaf(H: Hasher, db: Db, mem: Mem, block: nat, pos: nat, index: nat, leaf: Hash): (r: AddResult)
    ensures |r.mem.cache| == |mem.cache|
  {
    AddLeafFrom(H, db, Newest(db.roots), mem, block, pos, index, leaf)
  }

  /**
   The same for any answer of the query for the last root. A refused root leaves the cache renewed and the
   index as it was.
   */
  function AddLeafFrom(H: Hasher, db: Db, last: Option<RootRow>, mem: Mem, block: nat, pos: nat, index: nat, leaf: Hash)
    : (r: AddResult)
    ensures |r.mem.cache| == |mem.cache|
  {
    var (ok, ready) := PreparedFrom(db.rht, last, mem, index, |mem.cache|);
    if !ok || index != ready.lastIndex + 1 then AddResult(false, db, ready)
    else
      var sib := Met(H, ready.cache, index);
      var row := RootRow(Climb(H, sib, leaf, index, |sib|), index, block, pos);
      var cache := Recached(H, ready.cache, index, leaf);
      if HasRoot(db.roots, row.hash) then AddResult(false, db, ready.(cache := cache))
      else AddResult(true, Written(H, db, sib, row, leaf), Mem(cache, ready.lastIndex + 1))
  }

  // ----- what a good state is -----

  datatype Entry = Entry(block: nat, pos: nat, hash: Hash)

  function Hashes(es: seq<Entry>): (r: seq<Hash>)
    ensures |r| == |es|
    ensures forall k: nat {:trigger r[k]} :: k < |es| ==> r[k] == es[k].hash
  {
    seq(|es|, k requires 0 <= k < |es| => es[k].hash)
  }

  /** The leaves as they were after entry k, for every k. */
  ghost function History(es: seq<Entry>): (r: seq<Leaves>)
    ensures |r| == |es|
    ensures forall k: nat {:trigger r[k]} :: k < |es| ==> r[k] == Listed(Hashes(es[..k + 1]))
  {
    seq(|es|, k requires 0 <= k < |es| => Listed(Hashes(es[..k + 1])))
  }

  /** The root table of a tree fed with es, row by row. */
  ghost function Rows(H: Hasher, es: seq<Entry>, height: nat): (r: seq<RootRow>)
    ensures |r| == |es|
    ensures forall k: nat {:trigger r[k]} :: k < |es| ==>
              r[k] == RootRow(Root(H, Listed(Hashes(es[..k + 1])), height), k, es[k].block, es[k].pos)
  {
    seq(|es|, k requires 0 <= k < |es| =>
      RootRow(Root(H, Listed(Hashes(es[..k + 1])), height), k, es[k].block, es[k].pos))
  }

  ghost predicate Distinct(roots: seq<RootRow>) {
    forall j: nat, k: nat {:trigger roots[j], roots[k]} :: j < k < |roots| ==> roots[j].hash != roots[k].hash
  }

  /** The tables are those of a tree fed with es and nothing else, apart from nodes left over in the RHT. */
  ghost predicate GoodDb(H: Hasher, height: nat, db: Db, es: seq<Entry>) {
    && |es| <= Pow2(height)
    && Holds(H, height, db, History(es))
    && db.roots == Rows(H, es, height)
    && Distinct(db.roots)
  }

  /** If the index says the memory is up to date, the cache serves the next leaf. */
  ghost predicate GoodMem(H: Hasher, height: nat, mem: Mem, es: seq<Entry>) {
    && |mem.cache| == height
    && (mem.lastIndex == -2 || mem.lastIndex >= |es| - 1)
    && (mem.lastIndex == |es| - 1 ==> Frontier(H, Listed(Hashes(es)), mem.cache, |es|))
  }

  ghost predicate Good(H: Hasher, height: nat, s: Machine, es: seq<Entry>) {
    GoodDb(H, height, s.db, es) && GoodMem(H, height, s.mem, es)
  }

  lemma HistoryCurrent(es: seq<Entry>)
    ensures Current(History(es)) == Listed(Hashes(es))
  {}

  /** Rebuilding the cache from the tables gives, level by level, the cache that incremental adding would hold. */
  lemma RebuildIsExact(H: Hasher, height: nat, db: Db, mem: Mem, es: seq<Entry>)
    requires GoodDb(H, height, db, es)
    ensures InitCache(db, mem, height).0
    ensures InitCache(db, mem, height).1.lastIndex == |es| - 1
    ensures es != [] ==> InitCache(db, mem, height).1.cache == ExactCache(H, Hashes(es), height)
    ensures Frontier(H, Listed(Hashes(es)), InitCache(db, mem, height).1.cache, |es|)
  {
    if es == [] {
      assert Hashes(es) == [];
      BlankIsFrontier(H, Blank(height));
    } else {
      var m, i := Listed(Hashes(es)), |es| - 1;
      HistoryCurrent(es);
      CurrentStored(H, height, db, History(es));
      SoundEmptyNodes(H, height, db.rht);
      UpIsZero(i, height);
      LeftsRead(H, height, db.rht, m, Root(H, m, height), i, height);
      var c := Lefts(db.rht, Root(H, m, height), i, height).value;
      assert c == ExactCache(H, Hashes(es), height);
      ExactIsFrontier(H, Hashes(es), height);
    }
  }

  /** Memory is ready for the next leaf either way: as it is, or rebuilt. */
  lemma PreparedServes(H: Hasher, height: nat, s: Machine, es: seq<Entry>)
    requires Good(H, height, s, es) && |es| < Pow2(height)
    ensures var (ok, ready) := Prepared(s.db, s.mem, |es|, height);
            && ok && ready.lastIndex == |es| - 1 && |ready.cache| == height
            && Frontier(H, Listed(Hashes(es)), ready.cache, |es|)
  {
    if |es| != s.mem.lastIndex + 1 {
      RebuildIsExact(H, height, s.db, s.mem, es);
    }
  }

  /** The index check lets exactly two indexes through, and one of them is a gap when the memory is stale. */
  lemma IndexAcceptedIff(H: Hasher, height: nat, s: Machine, es: seq<Entry>, index: nat)
    requires Good(H, height, s, es) && |es| < Pow2(height)
    ensures var (ok, ready) := Prepared(s.db, s.mem, index, height);
            ok && index == ready.lastIndex + 1 <==> index == |es| || index == s.mem.lastIndex + 1
  {
    if index != s.mem.lastIndex + 1 {
      RebuildIsExact(H, height, s.db, s.mem, es);
    }
  }

  /** Blocks come in order. Positions may repeat: those of bridge events are never filled in. */
  ghost predicate Follows(es: seq<Entry>, e: Entry) {
    es == [] || es[|es| - 1].block <= e.block
  }

  /** The nodes the next leaf would write. */
  function NextPath(H: Hasher, mem: Mem, index: nat, leaf: Hash): seq<Pair> {
    Path(H, Met(H, mem.cache, index), leaf, index, |mem.cache|)
  }

  lemma RowsPush(H: Hasher, es: seq<Entry>, e: Entry, height: nat)
    ensures Rows(H, es + [e], height)
            == Rows(H, es, height)
               + [RootRow(Root(H, Listed(Hashes(es + [e])), height), |es|, e.block, e.pos)]
    ensures History(es + [e]) == History(es) + [Listed(Hashes(es + [e]))]
    ensures Hashes(es + [e]) == Hashes(es) + [e.hash]
  {
    hide Root, Rows, History, Hashes;
    var all := es + [e];
    assert all[..|es| + 1] == all;
    var rows, hist := Rows(H, all, height), History(all);
    forall k: nat {:trigger rows[k]} | k < |es|
      ensures rows[k] == Rows(H, es, height)[k]
    {
      assert all[..k + 1] == es[..k + 1] && all[k] == es[k];
    }
    forall k: nat {:trigger hist[k]} | k < |es|
      ensures hist[k] == History(es)[k]
    {
      assert all[..k + 1] == es[..k + 1];
    }
    assert rows == Rows(H, es, height) + [rows[|es|]] && hist == History(es) + [hist[|es|]];
  }

  /**
   One AddLeaf in a good state: accepted unless the root is already in the table. The new row is the
   specification root of all the leaves, and the cache is exact whether or not the root was accepted.
   */
  lemma AddLeafGood(H: Hasher, height: nat, s: Machine, es: seq<Entry>, e: Entry)
    requires Good(H, height, s, es) && |es| < Pow2(height) && Follows(es, e)
    requires Clean(H, height, s.db.rht, NextPath(H, Prepared(s.db, s.mem, |es|, height).1, |es|, e.hash))
    ensures var r := AddLeaf(H, s.db, s.mem, e.block, e.pos, |es|, e.hash);
            && r.mem.cache == ExactCache(H, Hashes(es + [e]), height)
            && (r.ok <==> !HasRoot(s.db.roots, Root(H, Listed(Hashes(es + [e])), height)))
            && (r.ok ==> Good(H, height, Machine(r.db, r.mem), es + [e]) && r.mem.lastIndex == |es|)
            && (!r.ok ==> r.db == s.db && r.mem.lastIndex == |es| - 1)
  {
    hide Node, Climb, Recached, ExactCache, Stored, PutAll, Path, Met, InitCache, Pow2, Frontier, SiblingsOf, Rows,
      History;
    var n, m := |es|, Listed(Hashes(es));
    var ready := Prepared(s.db, s.mem, n, height).1;
    PreparedServes(H, height, s, es);
    var sib := Met(H, ready.cache, n);
    var row := RootRow(Climb(H, sib, e.hash, n, height), n, e.block, e.pos);
    HistoryCurrent(es);
    MetAreSiblings(H, Hashes(es), ready.cache);
    RowsPush(H, es, e, height);
    ListedAppend(Hashes(es), e.hash);
    UpIsZero(n, height);
    ClimbInsert(H, m, sib, n, e.hash, height);
    RecachedIsExact(H, Hashes(es), ready.cache, e.hash);
    if !HasRoot(s.db.roots, row.hash) {
      RowFollows(H, es, e, row, height);
      WrittenHolds(H, height, s.db, History(es), sib, row, e.hash);
      ExactIsFrontier(H, Hashes(es + [e]), height);
    }
  }

  lemma RowFollows(H: Hasher, es: seq<Entry>, e: Entry, row: RootRow, height: nat)
    requires InBlockOrder(Rows(H, es, height)) && Follows(es, e) && row.block == e.block
    ensures InBlockOrder(Rows(H, es, height) + [row])
  {
    B.RisingPush(Rows(H, es, height), row, BlockOf);
  }

  // ----- transactions -----

  datatype Add = Add(pos: nat, index: nat, hash: Hash)

  /** All the AddLeaf calls of one block, up to the first that fails; `added` counts the callbacks registered. */
  datatype BlockResult = BlockResult(ok: bool, db: Db, mem: Mem, added: nat)

  function AddAll(H: Hasher, db: Db, mem: Mem, block: nat, adds: seq<Add>): (r: BlockResult)
    ensures |r.mem.cache| == |mem.cache| && r.added <= |adds| && (r.ok ==> r.added == |adds|)
    ensures !r.ok ==> r.added < |adds|
    decreases |adds|
  {
    if adds == [] then BlockResult(true, db, mem, 0)
    else
      var r := AddLeaf(H, db, mem, block, adds[0].pos, adds[0].index, adds[0].hash);
      if !r.ok then BlockResult(false, r.db, r.mem, 0)
      else
        var rest := AddAll(H, r.db, r.mem, block, adds[1..]);
        rest.(added := rest.added + 1)
  }

  /** What becomes of a block whose leaves were added: committed; lost in a failed commit, after which the
      rollback reports an error and runs no callback; or rolled back because a later step failed. */
  datatype Fate = Commits | CommitFails | LaterStepFails

  datatype Op = Block(block: nat, adds: seq<Add>, fate: Fate) | Reorg(from: nat) | Restart

  predicate Committed(H: Hasher, s: Machine, op: Op)
    requires op.Block?
  {
    AddAll(H, s.db, s.mem, op.block, op.adds).ok && op.fate.Commits?
  }

  predicate RolledBack(H: Hasher, s: Machine, op: Op)
    requires op.Block?
  {
    !AddAll(H, s.db, s.mem, op.block, op.adds).ok || op.fate.LaterStepFails?
  }

  function Step(H: Hasher, s: Machine, op: Op): Machine {
    match op
    case Block(block, adds, fate) =>
      var r := AddAll(H, s.db, s.mem, block, adds);
      if Committed(H, s, op) then Machine(r.db, r.mem)
      else if RolledBack(H, s, op) then Machine(s.db, r.mem.(lastIndex := r.mem.lastIndex - r.added))
      else Machine(s.db, r.mem)
    case Reorg(from) => Machine(Db(s.db.rht, DeleteFrom(s.db.roots, from)), s.mem)
    case Restart => Machine(s.db, Mem(Blank(|s.mem.cache|), -2))
  }

  function EntryBlock(e: Entry): nat {
    e.block
  }

  function Kept(es: seq<Entry>, from: nat): (r: seq<Entry>) {
    B.Keep(es, EntryBlock, from)
  }

  function Entries(block: nat, adds: seq<Add>): (r: seq<Entry>)
    ensures |r| == |adds|
    ensures forall k: nat {:trigger r[k]} :: k < |adds| ==> r[k] == Entry(block, adds[k].pos, adds[k].hash)
  {
    seq(|adds|, k requires 0 <= k < |adds| => Entry(block, adds[k].pos, adds[k].hash))
  }

  /** The entries that survive: those of committed blocks, less those of reorged blocks. */
  function Survivors(H: Hasher, s: Machine, es: seq<Entry>, op: Op): seq<Entry> {
    match op
    case Block(block, adds, _) => if Committed(H, s, op) then es + Entries(block, adds) else es
    case Reorg(from) => Kept(es, from)
    case Restart => es
  }

  // ----- when the kept cache survives a rollback -----

  /** Leaves i..j share, with i, the node of every level where i is on the right. */
  ghost predicate RollbackSafe(i: nat, j: nat, height: nat) {
    forall h: nat {:trigger Up(j, h)} :: h < height && IsRight(i, h) ==> Up(j, h) == Up(i, h)
  }

  /** The largest power of two that divides i. */
  function LowBit(i: nat): nat
    requires i > 0
  {
    if i % 2 == 1 then 1 else 2 * LowBit(i / 2)
  }

  /** The bound a caller can check: a block may add as many leaves as the lowest set bit of its first index. */
  lemma {:induction false} RollbackSafeIff(i: nat, j: nat, height: nat)
    requires 0 < i <= j && i < Pow2(height)
    ensures RollbackSafe(i, j, height) <==> j < i + LowBit(i)
    decreases height
  {
    assert Up(i, 0) == i && Up(j, 0) == j;
    if height == 0 {
    } else if i % 2 == 1 {
      if i == j {
        assert RollbackSafe(i, j, height);
      } else {
        assert IsRight(i, 0) && Up(j, 0) != Up(i, 0);
      }
    } else {
      RollbackSafeIff(i / 2, j / 2, height - 1);
      HalvesSafe(i, j, height);
    }
  }

  lemma HalvesSafe(i: nat, j: nat, height: nat)
    requires i % 2 == 0 && height > 0
    ensures RollbackSafe(i, j, height) <==> RollbackSafe(i / 2, j / 2, height - 1)
  {
    if RollbackSafe(i, j, height) {
      forall h: nat {:trigger Up(j / 2, h)} | h < height - 1 && IsRight(i / 2, h)
        ensures Up(j / 2, h) == Up(i / 2, h)
      {
        UpHalf(i, h);
        UpHalf(j, h);
        assert IsRight(i, h + 1) && Up(j, h + 1) == Up(i, h + 1);
      }
    }
    if RollbackSafe(i / 2, j / 2, height - 1) {
      forall h: nat {:trigger Up(j, h)} | h < height && IsRight(i, h)
        ensures Up(j, h) == Up(i, h)
      {
        assert h > 0;
        UpHalf(i, h - 1);
        UpHalf(j, h - 1);
        assert IsRight(i / 2, h - 1) && Up(j / 2, h - 1) == Up(i / 2, h - 1);
      }
    }
  }

  /** With memory up to date, adding leaves does not touch the cache of a level where all of them are on the right. */
  lemma {:induction false} AddAllKeeps(H: Hasher, db: Db, mem: Mem, block: nat, adds: seq<Add>, h: nat)
    requires forall k: nat {:trigger adds[k]} :: k < |adds| ==> adds[k].index == mem.lastIndex + 1 + k
    requires h < |mem.cache|
    ensures var r := AddAll(H, db, mem, block, adds);
            && r.mem.lastIndex == mem.lastIndex + r.added
            && ((forall k: nat {:trigger adds[k]} :: k < |adds| && k <= r.added ==> IsRight(adds[k].index, h))
                ==> r.mem.cache[h] == mem.cache[h])
    decreases |adds|
  {
    if adds != [] {
      var r := AddLeaf(H, db, mem, block, adds[0].pos, adds[0].index, adds[0].hash);
      var rest := adds[1..];
      if r.ok {
        AddAllKeeps(H, r.db, r.mem, block, rest, h);
        var r' := AddAll(H, r.db, r.mem, block, rest);
        if forall k: nat {:trigger adds[k]} :: k < |adds| && k <= r'.added + 1 ==> IsRight(adds[k].index, h) {
          forall k: nat {:trigger rest[k]} | k < |rest| && k <= r'.added
            ensures IsRight(rest[k].index, h)
          {
            assert rest[k] == adds[k + 1];
          }
          assert IsRight(adds[0].index, h);
        }
      } else {
        assert adds[0].index == mem.lastIndex + 1;
      }
    }
  }

  // ----- whole runs -----

  /** The block's leaves carry on the indexes and the (block, position) order of the surviving ones. */
  ghost predicate InOrder(es: seq<Entry>, block: nat, adds: seq<Add>, height: nat)
    decreases |adds|
  {
    adds == [] ||
    var e := Entry(block, adds[0].pos, adds[0].hash);
    adds[0].index == |es| && |es| < Pow2(height) && Follows(es, e) && InOrder(es + [e], block, adds[1..], height)
  }

  /** Every node the block writes obeys the hypothesis on the hash function. */
  ghost predicate CleanAll(H: Hasher, height: nat, db: Db, mem: Mem, block: nat, adds: seq<Add>)
    decreases |adds|
  {
    adds == [] ||
    var a := adds[0];
    var r := AddLeaf(H, db, mem, block, a.pos, a.index, a.hash);
    && Clean(H, height, db.rht, NextPath(H, Prepared(db, mem, a.index, height).1, a.index, a.hash))
    && (r.ok ==> CleanAll(H, height, r.db, r.mem, block, adds[1..]))
  }

  /** The last leaf a block tried to add, given how many it added. */
  function LastTried(es: seq<Entry>, adds: seq<Add>, added: nat): nat
    requires adds != [] && added <= |adds|
  {
    |es| + if added < |adds| then added else |adds| - 1
  }

  /** No collision among the nodes of a block, and a rollback only within the bound. */
  ghost predicate Harmless(H: Hasher, height: nat, s: Machine, es: seq<Entry>, op: Op) {
    op.Block? ==>
      && CleanAll(H, height, s.db, s.mem, op.block, op.adds)
      && (RolledBack(H, s, op) && op.adds != [] ==>
            RollbackSafe(|es|, LastTried(es, op.adds, AddAll(H, s.db, s.mem, op.block, op.adds).added), height))
  }

  /** A rebuild that the block needs finds the last root for certain. */
  ghost predicate CertainRebuild(s: Machine, op: Op) {
    op.Block? && op.adds != [] && op.adds[0].index != s.mem.lastIndex + 1 ==> Certain(s.db.roots)
  }

  /** The leaves of a block are in order, and so is a rebuild that it needs. */
  ghost predicate WellFed(height: nat, s: Machine, es: seq<Entry>, op: Op) {
    CertainRebuild(s, op) && (op.Block? ==> InOrder(es, op.block, op.adds, height))
  }

  /** What is asked of a step. */
  ghost predicate Admissible(H: Hasher, height: nat, s: Machine, es: seq<Entry>, op: Op) {
    Harmless(H, height, s, es, op) && WellFed(height, s, es, op)
  }

  /** With the last root certain, or no rebuild needed, whatever the query may answer the leaf is added alike. */
  lemma AnswerForced(H: Hasher, db: Db, last: Option<RootRow>, mem: Mem, block: nat, pos: nat, index: nat, leaf: Hash)
    requires index == mem.lastIndex + 1 || (Certain(db.roots) && Legal(db.roots, last))
    ensures AddLeafFrom(H, db, last, mem, block, pos, index, leaf) == AddLeaf(H, db, mem, block, pos, index, leaf)
  {
    LastIsNewestIff(db.roots);
  }

  lemma {:induction false} InOrderIndexes(es: seq<Entry>, block: nat, adds: seq<Add>, height: nat, k: nat)
    requires InOrder(es, block, adds, height) && k < |adds|
    ensures adds[k].index == |es| + k
    decreases k
  {
    if k > 0 {
      InOrderIndexes(es + [Entry(block, adds[0].pos, adds[0].hash)], block, adds[1..], height, k - 1);
    }
  }

  lemma FirstInOrder(es: seq<Entry>, block: nat, adds: seq<Add>, height: nat)
    requires InOrder(es, block, adds, height) && adds != []
    ensures adds[0].index == |es| && |es| < Pow2(height)
  {}

  lemma {:induction false} AddAllGood(H: Hasher, height: nat, s: Machine, es: seq<Entry>, block: nat, adds: seq<Add>)
    requires Good(H, height, s, es) && InOrder(es, block, adds, height)
    requires CleanAll(H, height, s.db, s.mem, block, adds)
    ensures var r := AddAll(H, s.db, s.mem, block, adds);
            && (r.ok ==> Good(H, height, Machine(r.db, r.mem), es + Entries(block, adds)))
            && (adds != [] ==> r.mem.lastIndex == |es| - 1 + r.added)
    decreases |adds|
  {
    hide Good, AddLeaf, Clean, NextPath, Prepared, Follows;
    if adds == [] {
      assert es + Entries(block, adds) == es;
    } else {
      var e := Entry(block, adds[0].pos, adds[0].hash);
      AddLeafGood(H, height, s, es, e);
      var r := AddLeaf(H, s.db, s.mem, block, adds[0].pos, adds[0].index, adds[0].hash);
      if r.ok {
        AddAllGood(H, height, Machine(r.db, r.mem), es + [e], block, adds[1..]);
        assert es + [e] + Entries(block, adds[1..]) == es + Entries(block, adds);
      }
    }
  }

  /** A rebuild before the first leaf could as well have happened before the block. */
  lemma AddAllReady(H: Hasher, db: Db, mem: Mem, block: nat, adds: seq<Add>)
    requires adds != []
    requires var (ok, ready) := Prepared(db, mem, adds[0].index, |mem.cache|);
             ok && ready.lastIndex + 1 == adds[0].index && |ready.cache| == |mem.cache|
    ensures AddAll(H, db, mem, block, adds)
            == AddAll(H, db, Prepared(db, mem, adds[0].index, |mem.cache|).1, block, adds)
  {}

  /** After a rollback within the bound the kept cache still serves the leaf whose index comes again. */
  lemma RollbackGood(H: Hasher, height: nat, s: Machine, es: seq<Entry>, block: nat, adds: seq<Add>)
    requires Good(H, height, s, es) && InOrder(es, block, adds, height) && adds != []
    requires CleanAll(H, height, s.db, s.mem, block, adds)
    requires RollbackSafe(|es|, LastTried(es, adds, AddAll(H, s.db, s.mem, block, adds).added), height)
    ensures var r := AddAll(H, s.db, s.mem, block, adds);
            GoodMem(H, height, r.mem.(lastIndex := r.mem.lastIndex - r.added), es)
  {
    hide GoodDb, AddLeaf, AddAll, CleanAll, InOrder, Prepared, Clean, Node;
    var ready := Prepared(s.db, s.mem, |es|, height).1;
    var r := AddAll(H, s.db, s.mem, block, adds);
    assert adds[0].index == |es| && |es| < Pow2(height) by {
      FirstInOrder(es, block, adds, height);
    }
    AddAllGood(H, height, s, es, block, adds);
    PreparedServes(H, height, s, es);
    AddAllReady(H, s.db, s.mem, block, adds);
    forall k: nat {:trigger adds[k]} | k < |adds|
      ensures adds[k].index == |es| + k
    {
      InOrderIndexes(es, block, adds, height, k);
    }
    forall h: nat | h < height && IsRight(|es|, h)
      ensures r.mem.cache[h] == ready.cache[h]
    {
      forall k: nat {:trigger adds[k]} | k < |adds| && k <= r.added
        ensures IsRight(adds[k].index, h)
      {
        UpMonotone(|es|, |es| + k, h);
        UpMonotone(|es| + k, LastTried(es, adds, r.added), h);
        assert Up(LastTried(es, adds, r.added), h) == Up(|es|, h);
      }
      AddAllKeeps(H, s.db, ready, block, adds, h);
    }
  }

  /** A reorg keeps the entries of the roots that it keeps. */
  lemma KeptCuts(H: Hasher, es: seq<Entry>, from: nat, height: nat)
    requires InBlockOrder(Rows(H, es, height))
    ensures |Kept(es, from)| == |DeleteFrom(Rows(H, es, height), from)| <= |es|
    ensures Kept(es, from) == es[..|Kept(es, from)|]
  {
    hide B.Keep, Root;
    B.KeepTogether(es, EntryBlock, Rows(H, es, height), BlockOf, from);
  }

  lemma GoodInBlockOrder(H: Hasher, height: nat, db: Db, es: seq<Entry>)
    requires GoodDb(H, height, db, es)
    ensures InBlockOrder(db.roots)
  {}

  lemma ReorgGood(H: Hasher, height: nat, s: Machine, es: seq<Entry>, from: nat)
    requires Good(H, height, s, es)
    ensures Good(H, height, Step(H, s, Reorg(from)), Kept(es, from))
  {
    hide Holds, Node, Frontier, Rows, History, Hashes, Kept, DeleteFrom, InBlockOrder;
    var n := |Kept(es, from)|;
    GoodInBlockOrder(H, height, s.db, es);
    KeptCuts(H, es, from, height);
    ReorgHolds(H, height, s.db, History(es), from);
    DeleteCuts(s.db.roots, from);
    RowsPrefix(H, es, n, height);
    if n == |es| {
      assert es[..n] == es;
    }
  }

  lemma RowsPrefix(H: Hasher, es: seq<Entry>, n: nat, height: nat)
    requires n <= |es|
    ensures Rows(H, es, height)[..n] == Rows(H, es[..n], height)
    ensures History(es)[..n] == History(es[..n])
  {
    hide Node;
    forall k: nat | k < n
      ensures Rows(H, es, height)[k] == Rows(H, es[..n], height)[k] && History(es)[k] == History(es[..n])[k]
    {
      assert es[..n][..k + 1] == es[..k + 1];
    }
  }

  lemma AddAllOne(H: Hasher, db: Db, mem: Mem, num: nat, a: Add, rest: seq<Add>)
    ensures var r := AddLeaf(H, db, mem, num, a.pos, a.index, a.hash);
            AddAll(H, db, mem, num, [a] + rest)
            == if !r.ok then BlockResult(false, r.db, r.mem, 0)
               else var more := AddAll(H, r.db, r.mem, num, rest); more.(added := more.added + 1)
  {
    hide AddLeaf;
    assert ([a] + rest)[1..] == rest;
  }

  lemma NoLeaves(H: Hasher, db: Db, mem: Mem, block: nat)
    ensures AddAll(H, db, mem, block, []) == BlockResult(true, db, mem, 0)
  {}

  /** Every admissible step keeps the tables equal to those of a tree fed with the survivors. */
  lemma StepGood(H: Hasher, height: nat, s: Machine, es: seq<Entry>, op: Op)
    requires Good(H, height, s, es) && Harmless(H, height, s, es, op)
    requires op.Block? ==> InOrder(es, op.block, op.adds, height)
    ensures Good(H, height, Step(H, s, op), Survivors(H, s, es, op))
  {
    hide GoodDb, Frontier, AddAll, InOrder, CleanAll, RollbackSafe;
    match op
    case Block(block, adds, fate) =>
      AddAllGood(H, height, s, es, block, adds);
      if adds == [] {
        NoLeaves(H, s.db, s.mem, block);
      } else if RolledBack(H, s, op) {
        RollbackGood(H, height, s, es, block, adds);
      }
    case Reorg(from) =>
      ReorgGood(H, height, s, es, from);
    case Restart =>
  }

  function Run(H: Hasher, s: Machine, ops: seq<Op>): Machine
    decreases |ops|
  {
    if ops == [] then s else Run(H, Step(H, s, ops[0]), ops[1..])
  }

  function RunSurvivors(H: Hasher, s: Machine, es: seq<Entry>, ops: seq<Op>): seq<Entry>
    decreases |ops|
  {
    if ops == [] then es else RunSurvivors(H, Step(H, s, ops[0]), Survivors(H, s, es, ops[0]), ops[1..])
  }

  ghost predicate AdmissibleRun(H: Hasher, height: nat, s: Machine, es: seq<Entry>, ops: seq<Op>)
    decreases |ops|
  {
    ops == [] ||
    (&& Admissible(H, height, s, es, ops[0])
     && AdmissibleRun(H, height, Step(H, s, ops[0]), Survivors(H, s, es, ops[0]), ops[1..]))
  }

  ghost predicate HarmlessRun(H: Hasher, height: nat, s: Machine, es: seq<Entry>, ops: seq<Op>)
    decreases |ops|
  {
    ops == [] ||
    (&& Harmless(H, height, s, es, ops[0])
     && HarmlessRun(H, height, Step(H, s, ops[0]), Survivors(H, s, es, ops[0]), ops[1..]))
  }

  ghost predicate CertainRun(H: Hasher, s: Machine, ops: seq<Op>)
    decreases |ops|
  {
    ops == [] || (CertainRebuild(s, ops[0]) && CertainRun(H, Step(H, s, ops[0]), ops[1..]))
  }

  /** The height of the trees of the two syncers. */
  lemma FullTree()
    ensures Pow2(32) == 0x1_0000_0000
  {
    assert Pow2(8) == 0x100 && Pow2(16) == 0x1_0000 && Pow2(24) == 0x100_0000;
  }

  function Fresh(height: nat): Machine {
    Machine(Db(map[], []), Mem(Blank(height), -2))
  }

  lemma FreshGood(H: Hasher, height: nat)
    requires CollisionFree(H, ZeroNodes(H, height))
    ensures Good(H, height, Fresh(height), [])
  {
    var none: Rht := map[];
    assert none.Values + Members([]) + ZeroNodes(H, height) == ZeroNodes(H, height);
  }

  /** The same over every run of commits, failed commits, rollbacks, reorgs and restarts. */
  lemma {:induction false} RunGood(H: Hasher, height: nat, s: Machine, es: seq<Entry>, ops: seq<Op>)
    requires Good(H, height, s, es) && AdmissibleRun(H, height, s, es, ops)
    ensures Good(H, height, Run(H, s, ops), RunSurvivors(H, s, es, ops))
    decreases |ops|
  {
    if ops != [] {
      StepGood(H, height, s, es, ops[0]);
      RunGood(H, height, Step(H, s, ops[0]), Survivors(H, s, es, ops[0]), ops[1..]);
    }
  }

  // ----- a run against a fresh tree -----

  /** A new tree that is fed only es. */
  function Feed(H: Hasher, es: seq<Entry>, height: nat): Machine
    decreases |es|
  {
    if es == [] then Fresh(height)
    else
      var s := Feed(H, es[..|es| - 1], height);
      var e := es[|es| - 1];
      var r := AddLeaf(H, s.db, s.mem, e.block, e.pos, |es| - 1, e.hash);
      Machine(r.db, r.mem)
  }

  lemma {:induction false} StoredPathHas(H: Hasher, rht: Rht, m: Leaves, i: nat, h: nat, k: nat)
    requires Stored(H, rht, m, h, Up(i, h)) && i in m && k < h
    ensures HasNode(H, rht, m, k, Up(i, k + 1))
    decreases h
  {
    hide Node;
    assert !Vacant(m, h, Up(i, h));
    if k < h - 1 {
      StoredChild(H, rht, m, h - 1, Up(i, h), Up(i, h - 1));
      StoredPathHas(H, rht, m, i, h - 1, k);
    }
  }

  /** The nodes of a surviving leaf are all in the table already. */
  lemma PathKnown(H: Hasher, height: nat, rht: Rht, m: Leaves, sib: seq<Hash>, i: nat, v: Hash)
    requires |sib| == height && SiblingsOf(H, m, sib, i)
    requires Stored(H, rht, m[i := v], height, Up(i, height))
    ensures Members(Path(H, sib, v, i, height)) <= rht.Values
  {
    hide Node;
    var nodes := Path(H, sib, v, i, height);
    forall n | n in nodes
      ensures n in rht.Values
    {
      var k: nat :| k < |nodes| && nodes[k] == n;
      PathNodeIs(H, m, sib, i, v, k);
      StoredPathHas(H, rht, m[i := v], i, height, k);
    }
  }

  lemma {:induction false} FeedGood(H: Hasher, height: nat, s: Machine, es: seq<Entry>, n: nat)
    requires Good(H, height, s, es) && n <= |es|
    requires CollisionFree(H, ZeroNodes(H, height))
    ensures Good(H, height, Feed(H, es[..n], height), es[..n])
    ensures Feed(H, es[..n], height).db.rht.Values <= s.db.rht.Values
    decreases n
  {
    hide Good;
    if n == 0 {
      FreshGood(H, height);
    } else {
      var before, e := es[..n - 1], es[n - 1];
      assert es[..n][..n - 1] == before;
      FeedGood(H, height, s, es, n - 1);
      FeedNext(H, height, s, es, n, Feed(H, before, height));
    }
  }

  /** Feeding the next surviving entry to a tree that holds those before it. */
  lemma FeedNext(H: Hasher, height: nat, s: Machine, es: seq<Entry>, n: nat, t: Machine)
    requires Good(H, height, s, es) && 0 < n <= |es|
    requires Good(H, height, t, es[..n - 1]) && t.db.rht.Values <= s.db.rht.Values
    ensures var r := AddLeaf(H, t.db, t.mem, es[n - 1].block, es[n - 1].pos, n - 1, es[n - 1].hash);
            Good(H, height, Machine(r.db, r.mem), es[..n]) && r.db.rht.Values <= s.db.rht.Values
  {
    hide Node, Climb, Recached, Stored, InitCache, PutAll, Path, Met, Rows, Pow2;
    var before, e := es[..n - 1], es[n - 1];
    assert es[..n] == before + [e];
    NextIsKnown(H, height, s, es, n, t);
    EntryFollows(H, height, s, es, n);
    AddLeafGood(H, height, t, before, e);
    NewRootAbsent(H, height, s, es, n);
    PutAllExtends(H, t.db.rht, NextPath(H, Prepared(t.db, t.mem, n - 1, height).1, n - 1, e.hash));
  }

  /** Every node that it writes is in the table already. */
  lemma NextIsKnown(H: Hasher, height: nat, s: Machine, es: seq<Entry>, n: nat, t: Machine)
    requires Good(H, height, s, es) && 0 < n <= |es|
    requires Good(H, height, t, es[..n - 1]) && t.db.rht.Values <= s.db.rht.Values
    ensures var nodes := NextPath(H, Prepared(t.db, t.mem, n - 1, height).1, n - 1, es[n - 1].hash);
            Members(nodes) <= s.db.rht.Values && Clean(H, height, t.db.rht, nodes)
  {
    hide Node, Climb, Recached, Stored, InitCache, PutAll, Path, Rows, Pow2;
    var before, e := es[..n - 1], es[n - 1];
    assert es[..n] == before + [e];
    var ready := Prepared(t.db, t.mem, n - 1, height).1;
    PreparedServes(H, height, t, before);
    MetAreSiblings(H, Hashes(before), ready.cache);
    RowsPush(H, before, e, height);
    ListedAppend(Hashes(before), e.hash);
    UpIsZero(n - 1, height);
    assert History(es)[n - 1] == Listed(Hashes(es[..n]));
    PathKnown(H, height, s.db.rht, Listed(Hashes(before)), Met(H, ready.cache, n - 1), n - 1, e.hash);
    CleanSubset(H, height, s.db.rht, t.db.rht, NextPath(H, ready, n - 1, e.hash));
  }

  lemma CleanSubset(H: Hasher, height: nat, rht: Rht, less: Rht, nodes: seq<Pair>)
    requires Sound(H, height, rht) && less.Values <= rht.Values && Members(nodes) <= rht.Values
    ensures Clean(H, height, less, nodes)
  {
    assert less.Values + Members(nodes) + ZeroNodes(H, height) <= rht.Values + Members([]) + ZeroNodes(H, height);
  }

  lemma EntryFollows(H: Hasher, height: nat, s: Machine, es: seq<Entry>, n: nat)
    requires Good(H, height, s, es) && 0 < n <= |es|
    ensures Follows(es[..n - 1], es[n - 1])
  {
    if n > 1 {
      assert BlockOf(s.db.roots[n - 2]) <= BlockOf(s.db.roots[n - 1]);
    }
  }

  lemma NewRootAbsent(H: Hasher, height: nat, s: Machine, es: seq<Entry>, n: nat)
    requires Good(H, height, s, es) && 0 < n <= |es|
    ensures !HasRoot(Rows(H, es[..n - 1], height), Root(H, Listed(Hashes(es[..n])), height))
  {
    var rows := Rows(H, es[..n - 1], height);
    forall k: nat | k < |rows|
      ensures rows[k].hash != Root(H, Listed(Hashes(es[..n])), height)
    {
      assert es[..n - 1][..k + 1] == es[..k + 1];
      assert s.db.roots[k].hash != s.db.roots[n - 1].hash;
    }
  }

  /** Two trees with the same root table, the same proofs and the same leaves under every root of it. */
  ghost predicate SameTree(H: Hasher, height: nat, s: Machine, t: Machine, es: seq<Entry>) {
    && Good(H, height, s, es) && Good(H, height, t, es)
    && s.db.roots == t.db.roots
    && (forall k: nat, i: nat {:trigger es[k], Siblings(H, s.db.rht, s.db.roots[k].hash, i, height)} ::
          k < |es| && i < Pow2(height) ==>
            Siblings(H, s.db.rht, s.db.roots[k].hash, i, height)
              == Siblings(H, t.db.rht, s.db.roots[k].hash, i, height))
    && (forall k: nat, i: nat {:trigger es[k], es[i]} :: i <= k < |es| ==>
          && Lookup(s.db.rht, s.db.roots[k].hash, i, height) == Some(es[i].hash)
          && Lookup(t.db.rht, s.db.roots[k].hash, i, height) == Some(es[i].hash))
  }

  lemma GoodStatesAgree(H: Hasher, height: nat, s: Machine, t: Machine, es: seq<Entry>)
    requires Good(H, height, s, es) && Good(H, height, t, es)
    ensures SameTree(H, height, s, t, es)
  {
    hide Siblings, Lookup, Holds, Climb;
    assert s.db.roots == t.db.roots;
    forall k: nat, i: nat {:trigger es[k], Siblings(H, s.db.rht, s.db.roots[k].hash, i, height)}
      | k < |es| && i < Pow2(height)
      ensures Siblings(H, s.db.rht, s.db.roots[k].hash, i, height)
              == Siblings(H, t.db.rht, s.db.roots[k].hash, i, height)
    {
      GoodStatesRead(H, height, s, t, es, k, i);
    }
    forall k: nat, i: nat {:trigger es[k], es[i]} | i <= k < |es|
      ensures && Lookup(s.db.rht, s.db.roots[k].hash, i, height) == Some(es[i].hash)
              && Lookup(t.db.rht, s.db.roots[k].hash, i, height) == Some(es[i].hash)
    {
      GoodStatesRead(H, height, s, t, es, k, i);
    }
  }

  lemma GoodStatesRead(H: Hasher, height: nat, s: Machine, t: Machine, es: seq<Entry>, k: nat, i: nat)
    requires Good(H, height, s, es) && Good(H, height, t, es) && k < |es| && i < Pow2(height)
    ensures s.db.roots == t.db.roots
    ensures Siblings(H, s.db.rht, s.db.roots[k].hash, i, height) == Siblings(H, t.db.rht, t.db.roots[k].hash, i, height)
    ensures i <= k ==> Lookup(s.db.rht, s.db.roots[k].hash, i, height) == Some(es[i].hash)
    ensures i <= k ==> Lookup(t.db.rht, t.db.roots[k].hash, i, height) == Some(es[i].hash)
    ensures Climb(H, Siblings(H, s.db.rht, s.db.roots[k].hash, i, height),
                  if i <= k then es[i].hash else 0, i, height) == s.db.roots[k].hash
  {
    StoredRootsRead(H, height, s.db, History(es), k, i);
    StoredRootsRead(H, height, t.db, History(es), k, i);
    assert History(es)[k] == Listed(Hashes(es[..k + 1]));
  }

  /** Two good states treat the next leaf alike; collision-freedom of the one with more nodes is enough. */
  lemma GoodStatesAdd(H: Hasher, height: nat, s: Machine, t: Machine, es: seq<Entry>, e: Entry)
    requires Good(H, height, s, es) && Good(H, height, t, es) && |es| < Pow2(height) && Follows(es, e)
    requires t.db.rht.Values <= s.db.rht.Values
    requires Clean(H, height, s.db.rht, NextPath(H, Prepared(s.db, s.mem, |es|, height).1, |es|, e.hash))
    ensures SameNext(H, s, t, es, e)
  {
    hide Node, Climb, Met, Holds, Rows, InitCache, Recached, ExactCache, PutAll, Pow2, Root;
    SameNodes(H, height, s, t, es, e);
    AddLeafGood(H, height, s, es, e);
    AddLeafGood(H, height, t, es, e);
  }

  /** Both accept the next leaf or both refuse it, with the same root table and the same memory after it. */
  ghost predicate SameNext(H: Hasher, s: Machine, t: Machine, es: seq<Entry>, e: Entry) {
    var a := AddLeaf(H, s.db, s.mem, e.block, e.pos, |es|, e.hash);
    var b := AddLeaf(H, t.db, t.mem, e.block, e.pos, |es|, e.hash);
    a.ok == b.ok && a.db.roots == b.db.roots && a.mem == b.mem
  }

  /** Whatever memory serves the next leaf, the nodes it writes are the same. */
  lemma SameNodes(H: Hasher, height: nat, s: Machine, t: Machine, es: seq<Entry>, e: Entry)
    requires Good(H, height, s, es) && Good(H, height, t, es) && |es| < Pow2(height)
    requires t.db.rht.Values <= s.db.rht.Values
    requires Clean(H, height, s.db.rht, NextPath(H, Prepared(s.db, s.mem, |es|, height).1, |es|, e.hash))
    ensures Clean(H, height, t.db.rht, NextPath(H, Prepared(t.db, t.mem, |es|, height).1, |es|, e.hash))
  {
    hide Node, Climb, Path, Holds, Rows, InitCache, Frontier;
    var a, b := Prepared(s.db, s.mem, |es|, height).1.cache, Prepared(t.db, t.mem, |es|, height).1.cache;
    PreparedServes(H, height, s, es);
    PreparedServes(H, height, t, es);
    MetAreSiblings(H, Hashes(es), a);
    MetAreSiblings(H, Hashes(es), b);
    assert Met(H, a, |es|) == Met(H, b, |es|);
    var nodes := Path(H, Met(H, a, |es|), e.hash, |es|, height);
    assert t.db.rht.Values + Members(nodes) + ZeroNodes(H, height)
        <= s.db.rht.Values + Members(nodes) + ZeroNodes(H, height);
  }

  /**
   A state reached by any admissible run agrees with a fresh tree fed only the surviving leaves: in its root
   table, in every proof on a surviving root, in every leaf look-up on one, and in what becomes of the next leaf.
   */
  lemma RunIsFreshTree(H: Hasher, height: nat, ops: seq<Op>, e: Entry)
    requires CollisionFree(H, ZeroNodes(H, height))
    requires AdmissibleRun(H, height, Fresh(height), [], ops)
    ensures var s, es := Run(H, Fresh(height), ops), RunSurvivors(H, Fresh(height), [], ops);
            && SameTree(H, height, s, Feed(H, es, height), es)
            && (|es| < Pow2(height) && Follows(es, e)
                && Clean(H, height, s.db.rht, NextPath(H, Prepared(s.db, s.mem, |es|, height).1, |es|, e.hash))
                ==> SameNext(H, s, Feed(H, es, height), es, e))
  {
    hide SameTree, Good, AdmissibleRun, Feed, Run, SameNext, Clean, NextPath, Prepared, Follows, Pow2;
    var s, es := Run(H, Fresh(height), ops), RunSurvivors(H, Fresh(height), [], ops);
    FreshGood(H, height);
    RunGood(H, height, Fresh(height), [], ops);
    FeedGood(H, height, s, es, |es|);
    assert es[..|es|] == es;
    GoodStatesAgree(H, height, s, Feed(H, es, height), es);
    if |es| < Pow2(height) && Follows(es, e)
       && Clean(H, height, s.db.rht, NextPath(H, Prepared(s.db, s.mem, |es|, height).1, |es|, e.hash)) {
      GoodStatesAdd(H, height, s, Feed(H, es, height), es, e);
    }
  }

  // ----- the tree object -----

  class Tree {
    const H: Hasher
    const height: nat
    const zeroHashes: seq<Hash>
    var rht: Rht
    var roots: seq<RootRow>
    var lastLeftCache: array<Hash>
    var lastIndex: int

    ghost predicate Valid()
      reads this, lastLeftCache
    {
      && |zeroHashes| == height + 1
      && (forall h: nat {:trigger zeroHashes[h]} :: h <= height ==> zeroHashes[h] == Zero(H, h))
      && lastLeftCache.Length == height
    }

    ghost function Now(): Machine
      reads this, lastLeftCache
    {
      Machine(Db(rht, roots), Mem(lastLeftCache[..], lastIndex))
    }

    /** NewAppendOnlyTree over existing tables. */
    constructor (H: Hasher, height: nat, zeroHashes: seq<Hash>, rht: Rht, roots: seq<RootRow>)
      requires |zeroHashes| == height + 1
      requires forall h: nat {:trigger zeroHashes[h]} :: h <= height ==> zeroHashes[h] == Zero(H, h)
      ensures Valid() && fresh(lastLeftCache) && this.H == H && this.height == height
      ensures Now() == Machine(Db(rht, roots), Mem(Blank(height), -2))
    {
      this.H, this.height, this.zeroHashes := H, height, zeroHashes;
      this.rht, this.roots := rht, roots;
      lastLeftCache := new Hash[height](_ => 0);
      lastIndex := -2;
      new;
      assert lastLeftCache[..] == Blank(height);
    }

    /** initCache: the walk from a root that the query may answer down to its leaf. */
    method BuildCache() returns (ok: bool, ghost answer: Option<RootRow>)
      requires Valid()
      modifies this`lastIndex, lastLeftCache
      ensures Valid() && Legal(roots, answer)
      ensures var (done, mem) := InitCacheFrom(rht, answer, old(Now()).mem, height);
              ok == done && Now() == Machine(old(Now()).db, mem)
    {
      hide Lefts, Legal;
      var last := GetLastRoot(roots);
      answer := last;
      if last.None? {
        lastIndex := -1;
        forall h | 0 <= h < height { lastLeftCache[h] := 0; }
        assert lastLeftCache[..] == Blank(height);
        return true, answer;
      }
      lastIndex := last.value.index;
      var siblings := CollectLefts(last.value.hash, last.value.index);
      if siblings.None? {
        return false, answer;
      }
      var reversed := siblings.value;
      var i, j := 0, height - 1;
      while i == j
        invariant i <= 1 && (i == j ==> 0 <= i < height)
        invariant reversed == siblings.value
        decreases i == j
      {
        reversed := reversed[i := reversed[j]][j := reversed[i]];
        i, j := i + 1, j - 1;
      }
      forall h | 0 <= h < height { lastLeftCache[h] := reversed[h]; }
      assert lastLeftCache[..] == reversed;
      return true, answer;
    }

    method CollectLefts(root: Hash, index: nat) returns (siblings: Option<seq<Hash>>)
      ensures siblings == Lefts(rht, root, index, height)
    {
      var currentNodeHash, h, found := root, height, [];
      while h > 0
        invariant 0 <= h <= height && |found| == height - h
        invariant Lefts(rht, currentNodeHash, index, h).None? <==> Lefts(rht, root, index, height).None?
        invariant Lefts(rht, currentNodeHash, index, h).Some? ==>
                    Lefts(rht, currentNodeHash, index, h).value + found == Lefts(rht, root, index, height).value
      {
        h := h - 1;
        if currentNodeHash !in rht {
          return None;
        }
        found := [rht[currentNodeHash].0] + found;
        currentNodeHash := if IsRight(index, h) then rht[currentNodeHash].1 else rht[currentNodeHash].0;
      }
      assert [] + found == found;
      return Some(found);
    }

    /** AddLeaf, with the loop that climbs, renews the cache and collects the nodes. */
    method Append(block: nat, pos: nat, index: nat, leaf: Hash) returns (ok: bool, ghost answer: Option<RootRow>)
      requires Valid()
      modifies this, lastLeftCache
      ensures Valid() && lastLeftCache == old(lastLeftCache)
      ensures index == old(lastIndex) + 1 || Legal(old(roots), answer)
      ensures var was := old(Now());
              var r := AddLeafFrom(H, was.db, answer, was.mem, block, pos, index, leaf);
              ok == r.ok && Now() == Machine(r.db, r.mem)
    {
      hide Lefts, Legal;
      answer := None;
      if index != lastIndex + 1 {
        var built: bool;
        built, answer := BuildCache();
        if !built || index != lastIndex + 1 {
          return false, answer;
        }
      }
      ghost var ready := Now().mem;
      var currentChildHash, newNodes := Rise(index, leaf);
      if HasRoot(roots, currentChildHash) {
        return false, answer;
      }
      roots := roots + [RootRow(currentChildHash, index, block, pos)];
      rht := StoreNodes(H, rht, newNodes);
      lastIndex := lastIndex + 1;
      return true, answer;
    }

    method Rise(index: nat, leaf: Hash) returns (currentChildHash: Hash, newNodes: seq<Pair>)
      requires Valid()
      modifies lastLeftCache
      ensures var sib := Met(H, old(lastLeftCache[..]), index);
              && currentChildHash == Climb(H, sib, leaf, index, height)
              && newNodes == Path(H, sib, leaf, index, height)
      ensures lastLeftCache[..] == Recached(H, old(lastLeftCache[..]), index, leaf)
    {
      hide Climb, Met, Zero;
      ghost var kept := lastLeftCache[..];
      ghost var sib := Met(H, kept, index);
      NoClimb(H, sib, leaf, index);
      currentChildHash, newNodes := leaf, [];
      for h := 0 to height
        invariant currentChildHash == Climb(H, sib, leaf, index, h)
        invariant newNodes == Path(H, sib, leaf, index, h)
        invariant forall k: nat {:trigger lastLeftCache[k]} :: k < height ==>
                    lastLeftCache[k] == if k < h then Recached(H, kept, index, leaf)[k] else kept[k]
      {
        ClimbMet(H, kept, leaf, index, h);
        var parent: Pair;
        if IsRight(index, h) {
          parent := (lastLeftCache[h], currentChildHash);
        } else {
          parent := (currentChildHash, zeroHashes[h]);
          lastLeftCache[h] := currentChildHash;
        }
        currentChildHash := H(parent.0, parent.1);
        newNodes := newNodes + [parent];
      }
      assert lastLeftCache[..] == Recached(H, kept, index, leaf);
    }

    method DeleteRoots(firstReorgedBlock: nat)
      modifies this`roots
      ensures Now() == Step(H, old(Now()), Reorg(firstReorgedBlock))
    {
      roots := DeleteFrom(roots, firstReorgedBlock);
    }
  }
}
