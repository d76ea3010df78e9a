/**
 What the processor of the L1 info tree answers to a block, judged by the rows alone: without the tree's tables and
 memory, from the specification root of the leaves. And what the rows hold, from the updates that survive.
 */
module L1InfoVerdicts {
  import opened Merkle
  import opened NodeTable
  import opened Wrappers
  import opened L1InfoProcessor
  import A = AppendOnlyTree
  import V = VerifyBatches
  import B = BlockRows

  // ----- what the rows hold -----

  /** An update and the block it came in. */
  datatype Logged = Logged(block: nat, update: Update)

  function LoggedBlock(l: Logged): nat {
    l.block
  }

  /** The row of update number i, field by field. */
  ghost predicate IsRow(H: Hasher, L: LeafHasher, l: Logged, i: nat, row: Leaf) {
    && row.block == l.block && row.pos == l.update.pos && row.position == i
    && row.previousBlockHash == l.update.parentHash && row.timestamp == l.update.timestamp
    && row.mainnetExitRoot == l.update.mainnetExitRoot && row.rollupExitRoot == l.update.rollupExitRoot
    && row.globalExitRoot == H(l.update.mainnetExitRoot, l.update.rollupExitRoot)
    && row.hash == L(row.globalExitRoot, l.update.parentHash, l.update.timestamp)
  }

  ghost predicate AreRows(H: Hasher, L: LeafHasher, us: seq<Logged>, leaves: seq<Leaf>) {
    |us| == |leaves| &&
    forall i: nat {:trigger us[i]} {:trigger leaves[i]} :: i < |us| ==> IsRow(H, L, us[i], i, leaves[i])
  }

  /** The updates among the events of a block. */
  function UpdatesOf(num: nat, events: seq<Event>): seq<Logged>
    decreases |events|
  {
    if events == [] then []
    else (if events[0].update.Some? then [Logged(num, events[0].update.value)] else []) + UpdatesOf(num, events[1..])
  }

  /** The updates that survive a step: those of accepted blocks, less those of reorged blocks. */
  function StepUpdates(H: Hasher, L: LeafHasher, p: Processor, us: seq<Logged>, op: Op): seq<Logged> {
    match op
    case Feed(b, commits) => if Accepts(H, L, p, b, commits) then us + UpdatesOf(b.num, b.events) else us
    case Reorg(from, commits) => if commits then B.Keep(us, LoggedBlock, from) else us
    case Restart => us
  }

  function RunUpdates(H: Hasher, L: LeafHasher, p: Processor, us: seq<Logged>, ops: seq<Op>): seq<Logged>
    decreases |ops|
  {
    if ops == [] then us else RunUpdates(H, L, Step(H, L, p, ops[0]), StepUpdates(H, L, p, us, ops[0]), ops[1..])
  }

  lemma EventRow(H: Hasher, L: LeafHasher, w: Work, num: nat, first: nat, e: Event, us: seq<Logged>, lo: int)
    requires WorkInv(w, num, first, lo) && DoEvent(H, L, w, num, first, e).Done?
    requires e.update.Some? ==> lo < e.update.value.pos && |w.tables.leaves| + 1 < 0x1_0000_0000
    requires AreRows(H, L, us, w.tables.leaves)
    ensures var more := if e.update.Some? then us + [Logged(num, e.update.value)] else us;
            AreRows(H, L, more, DoEvent(H, L, w, num, first, e).w.tables.leaves)
  {
    hide A.AddLeaf, Checks, Clashes, B.Insert, Inv, L1InfoProcessor.Before;
    var a := if e.update.Some? then AddInfo(H, L, w, num, first, e.update.value) else Done(w);
    ChecksFrame(H, a.w, num, e);
    if e.update.Some? {
      AddInfoExtends(H, L, w, num, first, e.update.value, lo);
    }
  }

  lemma {:induction false} GoRows(
    H: Hasher, L: LeafHasher, w: Work, num: nat, first: nat, events: seq<Event>, us: seq<Logged>, lo: int)
    requires WorkInv(w, num, first, lo) && Rising(events, lo) && |w.tables.leaves| + Updates(events) < 0x1_0000_0000
    requires AreRows(H, L, us, w.tables.leaves) && Go(H, L, w, num, first, events).Done?
    ensures AreRows(H, L, us + UpdatesOf(num, events), Go(H, L, w, num, first, events).w.tables.leaves)
    decreases |events|
  {
    hide DoEvent, Inv, L1InfoProcessor.Before, AreRows;
    if events == [] {
      assert us + UpdatesOf(num, events) == us;
    } else {
      var e := events[0];
      var more := if e.update.Some? then us + [Logged(num, e.update.value)] else us;
      DoEventInv(H, L, w, num, first, e, lo);
      EventRow(H, L, w, num, first, e, us, lo);
      GoRows(H, L, DoEvent(H, L, w, num, first, e).w, num, first, events[1..], more, NextLo(e, lo));
      assert more + UpdatesOf(num, events[1..]) == us + UpdatesOf(num, events);
    }
  }

  lemma CutRows(H: Hasher, L: LeafHasher, t: Tables, us: seq<Logged>, from: nat)
    requires Inv(t) && AreRows(H, L, us, t.leaves)
    ensures AreRows(H, L, B.Keep(us, LoggedBlock, from), KeptLeaves(t.leaves, from))
  {
    hide B.Keep;
    forall i: nat, j: nat {:trigger t.leaves[i], t.leaves[j]} | i < j < |t.leaves|
      ensures LeafBlock(t.leaves[i]) <= LeafBlock(t.leaves[j])
    {
      assert Precedes(t.leaves[i], t.leaves[j]);
    }
    B.KeepTogether(us, LoggedBlock, t.leaves, LeafBlock, from);
  }

  lemma StepRows(H: Hasher, L: LeafHasher, p: Processor, us: seq<Logged>, op: Op)
    requires Inv(p.tables) && (op.Feed? ==> InOrder(p.tables, op.b)) && AreRows(H, L, us, p.tables.leaves)
    ensures AreRows(H, L, StepUpdates(H, L, p, us, op), Step(H, L, p, op).tables.leaves)
  {
    hide Inv, Go, AreRows, KeptLeaves, B.Keep;
    match op
    case Feed(b, commits) =>
      if Accepts(H, L, p, b, commits) {
        BeginInv(p, b);
        GoRows(H, L, Begin(p, b.num), b.num, FirstIndex(p.tables.leaves), b.events, us, -1);
      }
    case Reorg(from, _) => CutRows(H, L, p.tables, us, from);
    case Restart =>
  }

  /** Over every run the rows of l1info_leaf are, field by field, those of the updates that survive. */
  lemma {:induction false} RowsAreUpdates(H: Hasher, L: LeafHasher, p: Processor, us: seq<Logged>, ops: seq<Op>)
    requires Inv(p.tables) && FedInOrder(H, L, p, ops) && AreRows(H, L, us, p.tables.leaves)
    ensures AreRows(H, L, RunUpdates(H, L, p, us, ops), Run(H, L, p, ops).tables.leaves)
    decreases |ops|
  {
    hide Inv, Step, InOrder, AreRows, StepUpdates;
    if ops != [] {
      StepRows(H, L, p, us, ops[0]);
      StepInv(H, L, p, ops[0]);
      RowsAreUpdates(H, L, Step(H, L, p, ops[0]), StepUpdates(H, L, p, us, ops[0]), ops[1..]);
    }
  }

  // ----- the verdict -----

  /** What a verdict depends on. */
  datatype Seen = Seen(leaves: seq<Leaf>, exits: V.State, initial: Option<(nat, Init)>)

  datatype Verdict = Fine(after: Seen) | Refused | Contradicted

  function SeenOf(t: Tables): Seen {
    Seen(t.leaves, t.exits, t.initial)
  }

  /** The root of the L1 info tree with these leaves. */
  function RootOf(H: Hasher, leaves: seq<Leaf>): Hash {
    Root(H, Listed(A.Hashes(Known(leaves))), HEIGHT)
  }

  /** The row of leaf n. */
  function RowFor(H: Hasher, L: LeafHasher, num: nat, n: nat, u: Update): Leaf {
    var ger := H(u.mainnetExitRoot, u.rollupExitRoot);
    Leaf(block := num, pos := u.pos, position := n, previousBlockHash := u.parentHash, timestamp := u.timestamp,
         mainnetExitRoot := u.mainnetExitRoot, rollupExitRoot := u.rollupExitRoot, globalExitRoot := ger,
         hash := L(ger, u.parentHash, u.timestamp))
  }

  /** The leaves, with that of the event if it has one. */
  function WithOwn(H: Hasher, L: LeafHasher, num: nat, leaves: seq<Leaf>, e: Event): seq<Leaf> {
    if e.update.Some? then leaves + [RowFor(H, L, num, |leaves|, e.update.value)] else leaves
  }

  ghost predicate HasExitRoot(leaves: seq<Leaf>, ger: Hash) {
    exists j: nat {:trigger leaves[j]} :: j < |leaves| && leaves[j].globalExitRoot == ger
  }

  function RootAfter(H: Hasher, leaves: seq<Leaf>, j: nat): Hash
    requires j < |leaves|
  {
    RootOf(H, leaves[..j + 1])
  }

  /** The tree had this root after one of the leaves. */
  ghost predicate HadRoot(H: Hasher, leaves: seq<Leaf>, root: Hash) {
    exists j: nat {:trigger RootAfter(H, leaves, j)} :: j < |leaves| && RootAfter(H, leaves, j) == root
  }

  /** The next leaf repeats a global exit root, or takes the tree back to a root that it had. */
  ghost predicate Repeats(H: Hasher, leaves: seq<Leaf>, l: Leaf) {
    HasExitRoot(leaves, l.globalExitRoot) || HadRoot(H, leaves, RootOf(H, leaves + [l]))
  }

  /** The contract's root and count are not those of the leaves. */
  ghost predicate Contradicts(H: Hasher, leaves: seq<Leaf>, v2: UpdateV2) {
    v2.leafCount != |leaves| || v2.currentRoot != RootOf(H, leaves)
  }

  ghost function JudgeOne(H: Hasher, L: LeafHasher, num: nat, s: Seen, e: Event): Verdict {
    var leaves := WithOwn(H, L, num, s.leaves, e);
    if e.update.Some? && Repeats(H, s.leaves, RowFor(H, L, num, |s.leaves|, e.update.value)) then Refused
    else if e.updateV2.Some? && leaves == [] then Refused
    else if e.updateV2.Some? && Contradicts(H, leaves, e.updateV2.value) then Contradicted
    else
      var x := if e.verify.Some? then V.Process(H, s.exits, e.verify.value.(block := num), HEIGHT) else Some(s.exits);
      if x.None? || (e.init.Some? && s.initial.Some?) then Refused
      else Fine(Seen(leaves, x.value, if e.init.Some? then Some((num, e.init.value)) else s.initial))
  }

  ghost function Judge(H: Hasher, L: LeafHasher, num: nat, s: Seen, events: seq<Event>): Verdict
    decreases |events|
  {
    if events == [] then Fine(s)
    else
      var v := JudgeOne(H, L, num, s, events[0]);
      if v.Fine? then Judge(H, L, num, v.after, events[1..]) else v
  }

  ghost predicate Agrees(r: Outcome, v: Verdict) {
    match v
    case Fine(after) => r.Done? && SeenOf(r.w.tables) == after
    case Refused => r.Failed?
    case Contradicted => r.Inconsistent?
  }

  ghost predicate GoodTree(H: Hasher, w: Work) {
    A.Good(H, HEIGHT, A.Machine(w.tables.info, w.mem), Known(w.tables.leaves))
  }

  lemma ClashesIff(w: Work, num: nat, first: nat, l: Leaf, lo: int)
    requires WorkInv(w, num, first, lo) && l.block == num && lo < l.pos
    ensures Clashes(w.tables.leaves, l) <==> HasExitRoot(w.tables.leaves, l.globalExitRoot)
  {
    hide Inv;
  }

  lemma HasRootIff(H: Hasher, db: Db, leaves: seq<Leaf>, root: Hash)
    requires A.GoodDb(H, HEIGHT, db, Known(leaves))
    ensures HasRoot(db.roots, root) <==> HadRoot(H, leaves, root)
  {
    hide Root, Holds;
    var es := Known(leaves);
    forall j: nat {:trigger RootAfter(H, leaves, j)} {:trigger db.roots[j]} | j < |leaves|
      ensures db.roots[j].hash == RootAfter(H, leaves, j)
    {
      assert es[..j + 1] == Known(leaves[..j + 1]);
    }
  }

  /** The tree takes a leaf exactly when it leads to a new root. */
  lemma LeafTaken(H: Hasher, w: Work, num: nat, l: Leaf)
    requires GoodTree(H, w) && Numbered(w.tables) && |w.tables.leaves| + 1 < 0x1_0000_0000
    requires l.block == num && forall i: nat {:trigger w.tables.leaves[i]} :: i < |w.tables.leaves| ==>
                                 w.tables.leaves[i].block <= num
    requires A.CleanAll(H, HEIGHT, w.tables.info, w.mem, num, [A.Add(l.pos, |w.tables.leaves|, l.hash)])
    ensures var r := A.AddLeaf(H, w.tables.info, w.mem, num, l.pos, |w.tables.leaves|, l.hash);
            && (r.ok <==> !HasRoot(w.tables.info.roots, RootOf(H, w.tables.leaves + [l])))
            && (r.ok ==> A.Good(H, HEIGHT, A.Machine(r.db, r.mem), Known(w.tables.leaves + [l])))
  {
    hide A.Good, A.AddLeaf, Root, Clean, Pow2;
    var es, e := Known(w.tables.leaves), A.Entry(num, l.pos, l.hash);
    A.FullTree();
    assert Known(w.tables.leaves + [l]) == es + [e];
    A.AddLeafGood(H, HEIGHT, A.Machine(w.tables.info, w.mem), es, e);
  }

  /** The update of an event: refused exactly when its leaf repeats something. */
  lemma UpdateJudged(H: Hasher, L: LeafHasher, w: Work, num: nat, first: nat, e: Event, lo: int)
    requires WorkInv(w, num, first, lo) && GoodTree(H, w) && e.update.Some?
    requires lo < e.update.value.pos && |w.tables.leaves| + 1 < 0x1_0000_0000
    requires A.CleanAll(H, HEIGHT, w.tables.info, w.mem, num, Handed(H, L, w, num, first, e))
    ensures var r, l := AddInfo(H, L, w, num, first, e.update.value),
                        RowFor(H, L, num, |w.tables.leaves|, e.update.value);
            && (if Repeats(H, w.tables.leaves, l) then r.Failed? else r.Done?)
            && (r.Done? ==> GoodTree(H, r.w) && r.w.tables.leaves == w.tables.leaves + [l])
            && r.w.tables.exits == w.tables.exits && r.w.tables.initial == w.tables.initial
  {
    hide A.AddLeaf, A.CleanAll, A.GoodMem, Clashes, HasRoot, HadRoot, HasExitRoot, RootOf, B.Insert;
    var leaves := w.tables.leaves;
    var l := RowFor(H, L, num, |leaves|, e.update.value);
    assert NewLeaf(H, L, num, e.update.value, Wrap32(first + w.added)) == l;
    ClashesIff(w, num, first, l, lo);
    HasRootIff(H, w.tables.info, leaves, RootOf(H, leaves + [l]));
    if !Clashes(leaves, l) {
      LeafTaken(H, w, num, l);
    }
    AddInfoExtends(H, L, w, num, first, e.update.value, lo);
  }

  /** One event. */
  lemma EventJudged(H: Hasher, L: LeafHasher, w: Work, num: nat, first: nat, e: Event, lo: int)
    requires WorkInv(w, num, first, lo) && GoodTree(H, w)
    requires e.update.Some? ==> lo < e.update.value.pos && |w.tables.leaves| + 1 < 0x1_0000_0000
    requires A.CleanAll(H, HEIGHT, w.tables.info, w.mem, num, Handed(H, L, w, num, first, e))
    ensures var r := DoEvent(H, L, w, num, first, e);
            Agrees(r, JudgeOne(H, L, num, SeenOf(w.tables), e)) && (r.Done? ==> GoodTree(H, r.w))
  {
    hide AddInfo, Repeats, RootOf, V.Process, Within, A.Good, A.CleanAll, Contradicts, CheckV2;
    var a := if e.update.Some? then AddInfo(H, L, w, num, first, e.update.value) else Done(w);
    if e.update.Some? {
      UpdateJudged(H, L, w, num, first, e, lo);
      AddInfoInv(H, L, w, num, first, e.update.value, lo);
    }
    if a.Done? && e.updateV2.Some? {
      CheckJudged(H, a.w, e.updateV2.value);
    }
  }

  /** The check of root and count. */
  lemma CheckJudged(H: Hasher, w: Work, v2: UpdateV2)
    requires Numbered(w.tables) && GoodTree(H, w)
    ensures CheckV2(w, v2) == if w.tables.leaves == [] then Failed(w)
                              else if Contradicts(H, w.tables.leaves, v2) then Inconsistent(w) else Done(w)
  {
    hide Root, Holds, A.GoodMem;
    var leaves := w.tables.leaves;
    assert leaves[..|leaves|] == leaves && Known(leaves)[..|leaves|] == Known(leaves);
  }

  /** Handing over the leaf of one event and then those of the rest. */
  lemma CleanSplit(H: Hasher, L: LeafHasher, w: Work, num: nat, first: nat, events: seq<Event>)
    requires events != []
    requires A.CleanAll(H, HEIGHT, w.tables.info, w.mem, num, Tried(H, L, w, num, first, events))
    ensures A.CleanAll(H, HEIGHT, w.tables.info, w.mem, num, Handed(H, L, w, num, first, events[0]))
    ensures var r := DoEvent(H, L, w, num, first, events[0]);
            r.Done? ==>
              A.CleanAll(H, HEIGHT, r.w.tables.info, r.w.mem, num, Tried(H, L, r.w, num, first, events[1..]))
  {
    hide A.AddLeaf, Checks, Clashes, B.Insert, Clean, NewLeaf;
    var e, r := events[0], DoEvent(H, L, w, num, first, events[0]);
    var a := if e.update.Some? then AddInfo(H, L, w, num, first, e.update.value) else Done(w);
    ChecksFrame(H, a.w, num, e);
    var own := Handed(H, L, w, num, first, e);
    var rest := if r.Done? then Tried(H, L, r.w, num, first, events[1..]) else [];
    if own == [] {
      assert own + rest == rest;
    } else {
      assert (own + rest)[0] == own[0] && (own + rest)[1..] == rest && own[1..] == [];
    }
  }

  /** All the events of a block. */
  lemma {:induction false} GoJudged(
    H: Hasher, L: LeafHasher, w: Work, num: nat, first: nat, events: seq<Event>, lo: int)
    requires WorkInv(w, num, first, lo) && Rising(events, lo) && |w.tables.leaves| + Updates(events) < 0x1_0000_0000
    requires GoodTree(H, w)
    requires A.CleanAll(H, HEIGHT, w.tables.info, w.mem, num, Tried(H, L, w, num, first, events))
    ensures Agrees(Go(H, L, w, num, first, events), Judge(H, L, num, SeenOf(w.tables), events))
    decreases |events|
  {
    hide DoEvent, Inv, L1InfoProcessor.Before, GoodTree, JudgeOne, Tried, A.CleanAll;
    if events != [] {
      var e := events[0];
      CleanSplit(H, L, w, num, first, events);
      EventJudged(H, L, w, num, first, e, lo);
      DoEventInv(H, L, w, num, first, e, lo);
      var r := DoEvent(H, L, w, num, first, e);
      if r.Done? {
        GoJudged(H, L, r.w, num, first, events[1..], NextLo(e, lo));
      }
    }
  }

  ghost predicate GoodProcessor(H: Hasher, p: Processor) {
    Inv(p.tables) && A.Good(H, HEIGHT, Machine(p), Known(p.tables.leaves))
  }

  /** The answer to a block in order: accepted, refused or halted, by the verdict, and what the rows then are. */
  ghost predicate JudgedRight(H: Hasher, L: LeafHasher, p: Processor, b: Block, commits: bool) {
    var v, q := Judge(H, L, b.num, SeenOf(p.tables), b.events), Processed(H, L, p, b, commits);
    && (Accepts(H, L, p, b, commits) <==> !p.halted && v.Fine? && commits)
    && (Accepts(H, L, p, b, commits) ==> SeenOf(q.tables) == v.after)
    && (q.halted <==> p.halted || v.Contradicted?)
  }

  lemma BlockJudged(H: Hasher, L: LeafHasher, p: Processor, b: Block, commits: bool)
    requires GoodProcessor(H, p) && InOrder(p.tables, b)
    requires A.CleanAll(H, HEIGHT, p.tables.info, p.mem, b.num,
                        Tried(H, L, Begin(p, b.num), b.num, FirstIndex(p.tables.leaves), b.events))
    ensures JudgedRight(H, L, p, b, commits)
  {
    hide Inv, Go, Judge, Tried, A.Good, A.CleanAll;
    BeginInv(p, b);
    GoJudged(H, L, Begin(p, b.num), b.num, FirstIndex(p.tables.leaves), b.events, -1);
  }

  lemma StepGood(H: Hasher, L: LeafHasher, p: Processor, op: Op)
    requires GoodProcessor(H, p) && (op.Feed? ==> InOrder(p.tables, op.b))
    requires var ops := TreeOps(H, L, p, op);
             ops != [] ==> A.Harmless(H, HEIGHT, Machine(p), Known(p.tables.leaves), ops[0])
    ensures GoodProcessor(H, Step(H, L, p, op))
  {
    hide Inv, Step, TreeOps, Known, A.Harmless, A.GoodDb, A.Survivors, A.Step, InOrder;
    StepInv(H, L, p, op);
    StepOnTree(H, L, p, op);
    StepKnown(H, L, p, op);
    StepWellFed(H, L, p, op);
    if TreeOps(H, L, p, op) != [] {
      A.StepGood(H, HEIGHT, Machine(p), Known(p.tables.leaves), TreeOps(H, L, p, op)[0]);
    }
  }

  lemma GoodCache(H: Hasher, p: Processor)
    requires GoodProcessor(H, p)
    ensures |p.mem.cache| == HEIGHT && Inv(p.tables)
  {
    hide Inv, A.GoodDb;
  }

  /** A run that is harmless for the tree is so for its first step, and from then on. */
  lemma HeadHarmless(H: Hasher, L: LeafHasher, p: Processor, ops: seq<Op>)
    requires GoodProcessor(H, p) && FedInOrder(H, L, p, ops) && TreeHarmless(H, L, p, ops) && ops != []
    ensures var t := TreeOps(H, L, p, ops[0]);
            t != [] ==> A.Harmless(H, HEIGHT, Machine(p), Known(p.tables.leaves), t[0])
    ensures TreeHarmless(H, L, Step(H, L, p, ops[0]), ops[1..])
  {
    hide GoodProcessor, Inv, Step, InOrder, TreeOps, A.Harmless, A.Step, A.Survivors, Known;
    var q, t := Step(H, L, p, ops[0]), TreeOps(H, L, p, ops[0]);
    var rest := AllTreeOps(H, L, q, ops[1..]);
    GoodCache(H, p);
    OneTreeOp(H, L, p, ops[0]);
    StepOnTree(H, L, p, ops[0]);
    StepKnown(H, L, p, ops[0]);
    if t == [] {
      assert t + rest == rest;
    } else {
      assert (t + rest)[0] == t[0] && (t + rest)[1..] == rest;
    }
  }

  lemma NextJudged(H: Hasher, L: LeafHasher, p: Processor, b: Block, commits: bool)
    requires GoodProcessor(H, p) && InOrder(p.tables, b)
    requires var t := TreeOps(H, L, p, Feed(b, commits));
             t != [] ==> A.Harmless(H, HEIGHT, Machine(p), Known(p.tables.leaves), t[0])
    ensures JudgedRight(H, L, p, b, commits)
  {
    hide GoodProcessor, Tried, Go, A.CleanAll, A.AddAll, Judge;
    if !p.halted {
      assert b.num !in p.tables.blocks;
      BlockJudged(H, L, p, b, commits);
    }
  }

  /**
   Over every run in order in which no hashes of tree nodes collide and no rollback goes beyond the tree's bound,
   the answer to the next block is the verdict.
   */
  lemma {:induction false} RunJudged(
    H: Hasher, L: LeafHasher, p: Processor, ops: seq<Op>, b: Block, commits: bool)
    requires GoodProcessor(H, p) && FedInOrder(H, L, p, ops + [Feed(b, commits)])
    requires TreeHarmless(H, L, p, ops + [Feed(b, commits)])
    ensures JudgedRight(H, L, Run(H, L, p, ops), b, commits)
    decreases |ops|
  {
    hide GoodProcessor, Step, InOrder, TreeOps, TreeHarmless, A.Harmless, Known, JudgedRight;
    var all := ops + [Feed(b, commits)];
    HeadHarmless(H, L, p, all);
    if ops == [] {
      assert all[0] == Feed(b, commits);
      NextJudged(H, L, p, b, commits);
    } else {
      assert all[0] == ops[0] && all[1..] == ops[1..] + [Feed(b, commits)];
      StepGood(H, L, p, ops[0]);
      RunJudged(H, L, Step(H, L, p, ops[0]), ops[1..], b, commits);
    }
  }

  /** From a new processor: rows, answer and halt depend on the updates that survive and the block alone. */
  lemma EveryAnswerIsTheVerdict(H: Hasher, L: LeafHasher, ops: seq<Op>, b: Block, commits: bool)
    requires CollisionFree(H, ZeroNodes(H, HEIGHT)) && FedInOrder(H, L, Fresh(), ops + [Feed(b, commits)])
    requires TreeHarmless(H, L, Fresh(), ops + [Feed(b, commits)])
    ensures AreRows(H, L, RunUpdates(H, L, Fresh(), [], ops), Run(H, L, Fresh(), ops).tables.leaves)
    ensures JudgedRight(H, L, Run(H, L, Fresh(), ops), b, commits)
  {
    hide Run, RunUpdates, FedInOrder, TreeHarmless, JudgedRight, Holds;
    FreshInv();
    A.FreshGood(H, HEIGHT);
    assert Known([]) == [];
    RunSnoc(H, L, Fresh(), ops, Feed(b, commits));
    RowsAreUpdates(H, L, Fresh(), [], ops);
    RunJudged(H, L, Fresh(), ops, b, commits);
  }

  // ----- when a block halts the processor -----

  /** Event k, with its own leaf in the tables, carries a root or a count that is not the stored one. */
  ghost predicate HaltsAt(H: Hasher, L: LeafHasher, p: Processor, b: Block, k: nat) {
    && k < |b.events| && b.events[k].updateV2.Some?
    && var e, first := b.events[k], FirstIndex(p.tables.leaves);
       var before := Go(H, L, Begin(p, b.num), b.num, first, b.events[..k]);
       && before.Done?
       && var own := if e.update.Some? then AddInfo(H, L, before.w, b.num, first, e.update.value) else before;
          && own.Done? && own.w.tables.leaves != []
          && !Matched(own.w.tables, |own.w.tables.leaves|, e.updateV2.value)
  }

  /** The events up to one that does not succeed decide. */
  lemma {:induction false} GoSplit(
    H: Hasher, L: LeafHasher, w: Work, num: nat, first: nat, events: seq<Event>, k: nat)
    requires k < |events| && Go(H, L, w, num, first, events[..k]).Done?
    ensures var r := DoEvent(H, L, Go(H, L, w, num, first, events[..k]).w, num, first, events[k]);
            if r.Done? then Go(H, L, w, num, first, events[..k + 1]) == r else Go(H, L, w, num, first, events) == r
    decreases k
  {
    hide DoEvent;
    var e := events[0];
    if k == 0 {
      assert events[..1][1..] == [] && events[..0] == [];
    } else {
      assert events[..k][1..] == events[1..][..k - 1] && events[..k + 1][1..] == events[1..][..k];
      GoSplit(H, L, DoEvent(H, L, w, num, first, e).w, num, first, events[1..], k - 1);
    }
  }

  lemma {:induction false} GoStops(
    H: Hasher, L: LeafHasher, w: Work, num: nat, first: nat, events: seq<Event>) returns (k: nat)
    requires !Go(H, L, w, num, first, events).Done?
    ensures k < |events| && Go(H, L, w, num, first, events[..k]).Done?
    ensures Go(H, L, w, num, first, events)
            == DoEvent(H, L, Go(H, L, w, num, first, events[..k]).w, num, first, events[k])
    decreases |events|
  {
    hide DoEvent;
    var r := DoEvent(H, L, w, num, first, events[0]);
    if r.Done? {
      k := GoStops(H, L, r.w, num, first, events[1..]);
      assert events[..k + 1][1..] == events[1..][..k];
      k := k + 1;
    } else {
      k := 0;
    }
  }

  lemma InvNumbered(w: Work)
    requires Inv(w.tables)
    ensures Numbered(w.tables)
  {}

  lemma {:induction false} GoPrefixInv(
    H: Hasher, L: LeafHasher, w: Work, num: nat, first: nat, events: seq<Event>, lo: int, k: nat)
    requires WorkInv(w, num, first, lo) && Rising(events, lo) && |w.tables.leaves| + Updates(events) < 0x1_0000_0000
    requires k < |events| && Go(H, L, w, num, first, events[..k]).Done?
    ensures var v, e := Go(H, L, w, num, first, events[..k]).w, events[k];
            && Numbered(v.tables)
            && (e.update.Some? ==>
                  var r := AddInfo(H, L, v, num, first, e.update.value); r.Done? ==> Numbered(r.w.tables))
    decreases k
  {
    hide DoEvent, Inv, L1InfoProcessor.Before, AddInfo;
    if k == 0 {
      assert events[..0] == [];
      if events[0].update.Some? {
        AddInfoInv(H, L, w, num, first, events[0].update.value, lo);
        if AddInfo(H, L, w, num, first, events[0].update.value).Done? {
          InvNumbered(AddInfo(H, L, w, num, first, events[0].update.value).w);
        }
      }
      InvNumbered(w);
    } else {
      assert events[..k][1..] == events[1..][..k - 1];
      DoEventInv(H, L, w, num, first, events[0], lo);
      GoPrefixInv(H, L, DoEvent(H, L, w, num, first, events[0]).w, num, first, events[1..], NextLo(events[0], lo),
                  k - 1);
    }
  }

  /** The event halts exactly when its check fails on a tree that is not empty. */
  lemma EventHaltsIff(H: Hasher, L: LeafHasher, w: Work, num: nat, first: nat, e: Event)
    requires Numbered(w.tables)
    requires e.update.Some? ==>
               var r := AddInfo(H, L, w, num, first, e.update.value); r.Done? ==> Numbered(r.w.tables)
    ensures var own := if e.update.Some? then AddInfo(H, L, w, num, first, e.update.value) else Done(w);
            DoEvent(H, L, w, num, first, e).Inconsistent? <==>
              && e.updateV2.Some? && own.Done? && own.w.tables.leaves != []
              && !Matched(own.w.tables, |own.w.tables.leaves|, e.updateV2.value)
  {
    hide V.Process, A.AddLeaf, Clashes, B.Insert;
  }

  /** A block in order halts the processor exactly when one of its checks fails after events that succeed. */
  lemma HaltsIff(H: Hasher, L: LeafHasher, p: Processor, b: Block, commits: bool)
    requires Inv(p.tables) && InOrder(p.tables, b) && !p.halted
    ensures Processed(H, L, p, b, commits).halted <==> exists k: nat :: HaltsAt(H, L, p, b, k)
  {
    hide Inv, Go, DoEvent, AddInfo, Matched, Numbered;
    var w, first := Begin(p, b.num), FirstIndex(p.tables.leaves);
    BeginInv(p, b);
    if k: nat :| HaltsAt(H, L, p, b, k) {
      GoPrefixInv(H, L, w, b.num, first, b.events, -1, k);
      EventHaltsIff(H, L, Go(H, L, w, b.num, first, b.events[..k]).w, b.num, first, b.events[k]);
      GoSplit(H, L, w, b.num, first, b.events, k);
    }
    if Processed(H, L, p, b, commits).halted {
      var k := GoStops(H, L, w, b.num, first, b.events);
      GoPrefixInv(H, L, w, b.num, first, b.events, -1, k);
      EventHaltsIff(H, L, Go(H, L, w, b.num, first, b.events[..k]).w, b.num, first, b.events[k]);
      assert HaltsAt(H, L, p, b, k);
    }
  }
}
