/**
 What the processor of the bridge syncer answers to a block, judged by its rows alone: without the tree's tables and
 memory, from the specification root of the exits.
 */
module BridgeVerdicts {
  import opened Merkle
  import opened Wrappers
  import NodeTable
  import opened BridgeSync
  import A = AppendOnlyTree
  import S = AggSender

  /** What a verdict depends on. */
  datatype Rows = Rows(bridges: seq<BridgeRow>, claims: seq<ClaimRow>)

  function RowsOf(t: Tables): Rows {
    Rows(t.bridges, t.claims)
  }

  /** The root of the exit tree after these bridges. */
  function RootOf(H: Hasher, leaf: Leaf, bridges: seq<BridgeRow>): Hash {
    Root(H, Listed(A.Hashes(Known(leaf, bridges))), HEIGHT)
  }

  function RootAfter(H: Hasher, leaf: Leaf, bridges: seq<BridgeRow>, j: nat): Hash
    requires j < |bridges|
  {
    RootOf(H, leaf, bridges[..j + 1])
  }

  /** The tree had this root after one of the bridges. */
  ghost predicate HadRoot(H: Hasher, leaf: Leaf, bridges: seq<BridgeRow>, root: Hash) {
    exists j: nat {:trigger RootAfter(H, leaf, bridges, j)} :: j < |bridges| && RootAfter(H, leaf, bridges, j) == root
  }

  /** The bridge repeats a position of its block, or takes the tree back to a root that it had. */
  ghost predicate Repeats(H: Hasher, leaf: Leaf, bridges: seq<BridgeRow>, num: nat, row: BridgeRow) {
    || (exists k: nat {:trigger bridges[k]} ::
          k < |bridges| && bridges[k].bridge.block == num && bridges[k].pos == row.pos)
    || HadRoot(H, leaf, bridges, RootOf(H, leaf, bridges + [InBlock(row, num)]))
  }

  /** As it is stored. */
  function InBlock(row: BridgeRow, num: nat): BridgeRow {
    BridgeRow(row.pos, row.bridge.(block := num))
  }

  ghost function JudgeOne(H: Hasher, leaf: Leaf, num: nat, r: Rows, e: Event): Option<Rows> {
    if e.bridge.Some? && Repeats(H, leaf, r.bridges, num, e.bridge.value) then None
    else if e.claim.Some? && ClaimRow(num, e.claim.value.pos) in r.claims then None
    else Some(Rows(r.bridges + if e.bridge.Some? then [InBlock(e.bridge.value, num)] else [],
                   r.claims + if e.claim.Some? then [ClaimRow(num, e.claim.value.pos)] else []))
  }

  /** The rows after the events of a block; None if one of them repeats something. */
  ghost function Judge(H: Hasher, leaf: Leaf, num: nat, r: Rows, events: seq<Event>): Option<Rows>
    decreases |events|
  {
    if events == [] then Some(r)
    else
      var next := JudgeOne(H, leaf, num, r, events[0]);
      if next.None? then None else Judge(H, leaf, num, next.value, events[1..])
  }

  ghost predicate Agrees(o: Outcome, v: Option<Rows>) {
    if v.Some? then o.Done? && RowsOf(o.w.tables) == v.value else o.Failed?
  }

  ghost predicate GoodTree(H: Hasher, leaf: Leaf, w: Work) {
    A.Good(H, HEIGHT, A.Machine(w.tables.exits, w.mem), Known(leaf, w.tables.bridges))
  }

  lemma HasRootIff(H: Hasher, leaf: Leaf, db: NodeTable.Db, bridges: seq<BridgeRow>, root: Hash)
    requires A.GoodDb(H, HEIGHT, db, Known(leaf, bridges))
    ensures NodeTable.HasRoot(db.roots, root) <==> HadRoot(H, leaf, bridges, root)
  {
    hide Root, NodeTable.Holds;
    var es := Known(leaf, bridges);
    forall j: nat {:trigger RootAfter(H, leaf, bridges, j)} {:trigger db.roots[j]} | j < |bridges|
      ensures db.roots[j].hash == RootAfter(H, leaf, bridges, j)
    {
      assert es[..j + 1] == Known(leaf, bridges[..j + 1]);
    }
  }

  /** The tree takes a bridge exactly when it leads to a new root. */
  lemma LeafTaken(H: Hasher, leaf: Leaf, w: Work, num: nat, row: BridgeRow)
    requires GoodTree(H, leaf, w) && WorkInv(w, num) && |w.tables.bridges| < Pow2(HEIGHT)
    requires A.CleanAll(H, HEIGHT, w.tables.exits, w.mem, num,
                        [A.Add(0, |w.tables.bridges|, leaf(S.ExitOf(row.bridge)))])
    ensures var bs := w.tables.bridges;
            var r := A.AddLeaf(H, w.tables.exits, w.mem, num, 0, |bs|, leaf(S.ExitOf(row.bridge)));
            && (r.ok <==> !HadRoot(H, leaf, bs, RootOf(H, leaf, bs + [InBlock(row, num)])))
            && (r.ok ==> A.Good(H, HEIGHT, A.Machine(r.db, r.mem), Known(leaf, bs + [InBlock(row, num)])))
  {
    hide A.GoodMem, A.AddLeaf, Root, NodeTable.Clean, Pow2, NodeTable.Holds, NodeTable.HasRoot, HadRoot;
    var bs, e := w.tables.bridges, A.Entry(num, 0, leaf(S.ExitOf(row.bridge)));
    var es := Known(leaf, bs);
    assert S.ExitOf(InBlock(row, num).bridge) == S.ExitOf(row.bridge);
    assert Known(leaf, bs + [InBlock(row, num)]) == es + [e];
    assert bs != [] ==> InTable(w.tables, |bs| - 1);
    A.AddLeafGood(H, HEIGHT, A.Machine(w.tables.exits, w.mem), es, e);
    HasRootIff(H, leaf, w.tables.exits, bs, RootOf(H, leaf, bs + [InBlock(row, num)]));
  }

  lemma EventJudged(H: Hasher, leaf: Leaf, w: Work, num: nat, e: Event)
    requires WorkInv(w, num) && GoodTree(H, leaf, w)
    requires e.bridge.Some? ==>
               e.bridge.value.bridge.depositCount == |w.tables.bridges| && |w.tables.bridges| < Pow2(HEIGHT)
    requires A.CleanAll(H, HEIGHT, w.tables.exits, w.mem, num, Handed(leaf, e))
    ensures var r := DoEvent(H, leaf, w, num, e);
            Agrees(r, JudgeOne(H, leaf, num, RowsOf(w.tables), e)) && (r.Done? ==> GoodTree(H, leaf, r.w))
  {
    hide A.AddLeaf, A.CleanAll, A.Good, HadRoot, RootOf, Inv, Pow2;
    if e.bridge.Some? {
      LeafTaken(H, leaf, w, num, e.bridge.value);
    }
  }

  lemma CleanSplit(H: Hasher, leaf: Leaf, w: Work, num: nat, events: seq<Event>)
    requires events != [] && A.CleanAll(H, HEIGHT, w.tables.exits, w.mem, num, Tried(H, leaf, w, num, events))
    ensures A.CleanAll(H, HEIGHT, w.tables.exits, w.mem, num, Handed(leaf, events[0]))
    ensures var r := DoEvent(H, leaf, w, num, events[0]);
            r.Done? ==> A.CleanAll(H, HEIGHT, r.w.tables.exits, r.w.mem, num, Tried(H, leaf, r.w, num, events[1..]))
  {
    hide A.AddLeaf, NodeTable.Clean, HasBridge;
    var r, own := DoEvent(H, leaf, w, num, events[0]), Handed(leaf, events[0]);
    var rest := if r.Done? then Tried(H, leaf, r.w, num, events[1..]) else [];
    if own == [] {
      assert own + rest == rest;
    } else {
      assert (own + rest)[0] == own[0] && (own + rest)[1..] == rest && own[1..] == [];
    }
  }

  lemma {:induction false} GoJudged(H: Hasher, leaf: Leaf, w: Work, num: nat, events: seq<Event>)
    requires WorkInv(w, num) && Consecutive(events, |w.tables.bridges|) && GoodTree(H, leaf, w)
    requires |w.tables.bridges| + Deposits(events) <= Pow2(HEIGHT)
    requires A.CleanAll(H, HEIGHT, w.tables.exits, w.mem, num, Tried(H, leaf, w, num, events))
    ensures Agrees(Go(H, leaf, w, num, events), Judge(H, leaf, num, RowsOf(w.tables), events))
    decreases |events|
  {
    hide DoEvent, Inv, GoodTree, JudgeOne, Tried, A.CleanAll, Pow2;
    if events != [] {
      CleanSplit(H, leaf, w, num, events);
      EventJudged(H, leaf, w, num, events[0]);
      DoEventInv(H, leaf, w, num, events[0]);
      var r := DoEvent(H, leaf, w, num, events[0]);
      if r.Done? {
        GoJudged(H, leaf, r.w, num, events[1..]);
      }
    }
  }

  /** The answer to a block in order, and the tables after it. */
  ghost predicate JudgedRight(H: Hasher, leaf: Leaf, p: Processor, b: Block, commits: bool) {
    var v, q := Judge(H, leaf, b.num, RowsOf(p.tables), b.events), Processed(H, leaf, p, b, commits).tables;
    if v.Some? && commits then RowsOf(q) == v.value && q.blocks == p.tables.blocks + [b.num] else q == p.tables
  }

  lemma NextJudged(H: Hasher, leaf: Leaf, p: Processor, b: Block, commits: bool)
    requires Consistent(H, leaf, p) && InOrder(p.tables, b)
    requires TreeHarmless(H, leaf, p, [Feed(b, commits)])
    ensures JudgedRight(H, leaf, p, b, commits)
  {
    hide Inv, Go, Judge, Tried, A.Good, A.CleanAll, A.AddAll, Pow2;
    A.FullTree();
    BeginInv(p, b);
    assert A.Harmless(H, HEIGHT, Machine(p), Known(leaf, p.tables.bridges), TreeOps(H, leaf, p, Feed(b, commits))[0]);
    GoJudged(H, leaf, Begin(p, b.num), b.num, b.events);
    GoBlocks(H, leaf, Begin(p, b.num), b.num, b.events);
  }

  lemma {:induction false} GoBlocks(H: Hasher, leaf: Leaf, w: Work, num: nat, events: seq<Event>)
    ensures Go(H, leaf, w, num, events).w.tables.blocks == w.tables.blocks
    decreases |events|
  {
    hide A.AddLeaf, HasBridge;
    if events != [] {
      var r := DoEvent(H, leaf, w, num, events[0]);
      if r.Done? {
        GoBlocks(H, leaf, r.w, num, events[1..]);
      }
    }
  }

  /**
   Over every run of blocks in order that is harmless for the tree, the next block is stored exactly when none of its
   events repeats a position, a claim or an exit root.
   */
  lemma EveryAnswerIsTheVerdict(H: Hasher, leaf: Leaf, ops: seq<Op>, b: Block, commits: bool)
    requires NodeTable.CollisionFree(H, NodeTable.ZeroNodes(H, HEIGHT))
    requires FedInOrder(H, leaf, Fresh(), ops) && TreeHarmless(H, leaf, Fresh(), ops)
    requires var p := Run(H, leaf, Fresh(), ops);
             InOrder(p.tables, b) && TreeHarmless(H, leaf, p, [Feed(b, commits)])
    ensures JudgedRight(H, leaf, Run(H, leaf, Fresh(), ops), b, commits)
  {
    hide Run, FedInOrder, TreeHarmless, Consistent, JudgedRight, InOrder;
    FreshConsistent(H, leaf);
    RunConsistent(H, leaf, Fresh(), ops);
    NextJudged(H, leaf, Run(H, leaf, Fresh(), ops), b, commits);
  }
}
