/**
 The processor of the bridge syncer: a block's bridges go into the exit tree and the bridge table in one transaction,
 and a reorg deletes blocks. What it holds after a run is what the certificate sender reads.
 */
module BridgeSync {
  import opened Merkle
  import opened NodeTable
  import opened Wrappers
  import A = AppendOnlyTree
  import S = AggSender
  import B = BlockRows

  /** A row of the bridge table; `pos` is its block_pos. */
  datatype BridgeRow = BridgeRow(pos: nat, bridge: S.Bridge)

  /** A row of the claim table, as far as its key. */
  datatype ClaimRow = ClaimRow(block: nat, pos: nat)

  datatype Event = Event(bridge: Option<BridgeRow>, claim: Option<ClaimRow>)

  datatype Block = Block(num: nat, events: seq<Event>)

  datatype Tables = Tables(blocks: seq<nat>, bridges: seq<BridgeRow>, claims: seq<ClaimRow>, exits: Db)

  datatype Processor = Processor(tables: Tables, mem: A.Mem)

  const HEIGHT: nat := 32

  type Leaf = S.Exit -> Hash

  predicate HasBridge(rows: seq<BridgeRow>, block: nat, pos: nat) {
    exists k: nat {:trigger rows[k]} :: k < |rows| && rows[k].bridge.block == block && rows[k].pos == pos
  }

  // ----- one block -----

  datatype Work = Work(tables: Tables, mem: A.Mem, added: nat)

  datatype Outcome = Done(w: Work) | Failed(w: Work)

  /**
   The position of the event, which is what the root is stored under, is never filled in and stays 0. The bridge
   carries the number of the block that its log is in.
   */
  function AddBridge(H: Hasher, leaf: Leaf, w: Work, num: nat, row: BridgeRow): Outcome {
    var r := A.AddLeaf(H, w.tables.exits, w.mem, num, 0, row.bridge.depositCount, leaf(S.ExitOf(row.bridge)));
    if !r.ok then Failed(w.(mem := r.mem))
    else
      var next := Work(w.tables.(exits := r.db), r.mem, w.added + 1);
      if HasBridge(w.tables.bridges, num, row.pos) then Failed(next)
      else
        var stored := row.(bridge := row.bridge.(block := num));
        Done(next.(tables := next.tables.(bridges := w.tables.bridges + [stored])))
  }

  function AddClaim(w: Work, num: nat, row: ClaimRow): Outcome {
    var stored := row.(block := num);
    if stored in w.tables.claims then Failed(w)
    else Done(w.(tables := w.tables.(claims := w.tables.claims + [stored])))
  }

  function DoEvent(H: Hasher, leaf: Leaf, w: Work, num: nat, e: Event): Outcome {
    var a := if e.bridge.Some? then AddBridge(H, leaf, w, num, e.bridge.value) else Done(w);
    if a.Done? && e.claim.Some? then AddClaim(a.w, num, e.claim.value) else a
  }

  function Go(H: Hasher, leaf: Leaf, w: Work, num: nat, events: seq<Event>): Outcome
    decreases |events|
  {
    if events == [] then Done(w)
    else
      var r := DoEvent(H, leaf, w, num, events[0]);
      if r.Failed? then r else Go(H, leaf, r.w, num, events[1..])
  }

  function Begin(p: Processor, num: nat): Work {
    Work(p.tables.(blocks := p.tables.blocks + [num]), p.mem, 0)
  }

  function Events(H: Hasher, leaf: Leaf, p: Processor, b: Block): Outcome {
    Go(H, leaf, Begin(p, b.num), b.num, b.events)
  }

  /** The whole block or, but for the tree's memory, nothing. */
  function Processed(H: Hasher, leaf: Leaf, p: Processor, b: Block, commits: bool): Processor {
    if b.num in p.tables.blocks then p
    else
      match Events(H, leaf, p, b)
      case Done(w) => if commits then Processor(w.tables, w.mem) else p.(mem := w.mem)
      case Failed(w) => p.(mem := w.mem.(lastIndex := w.mem.lastIndex - w.added))
  }

  // ----- reorg -----

  function Num(n: nat): nat {
    n
  }

  function BridgeBlock(row: BridgeRow): nat {
    row.bridge.block
  }

  function ClaimBlock(row: ClaimRow): nat {
    row.block
  }

  function Cut(t: Tables, from: nat): Tables {
    Tables(B.Keep(t.blocks, Num, from), B.Keep(t.bridges, BridgeBlock, from), B.Keep(t.claims, ClaimBlock, from),
           Db(t.exits.rht, DeleteFrom(t.exits.roots, from)))
  }

  function Reorged(p: Processor, from: nat, commits: bool): Processor {
    if commits then p.(tables := Cut(p.tables, from)) else p
  }

  function Fresh(): Processor {
    Processor(Tables([], [], [], Db(map[], [])), A.Mem(A.Blank(HEIGHT), -2))
  }

  class BridgeProcessor {
    const H: Hasher
    const leaf: Leaf
    var tables: Tables
    var mem: A.Mem

    constructor (H: Hasher, leaf: Leaf)
      ensures this.H == H && this.leaf == leaf && Now() == Fresh()
    {
      this.H, this.leaf := H, leaf;
      tables := Tables([], [], [], Db(map[], []));
      mem := A.Mem(A.Blank(HEIGHT), -2);
    }

    ghost function Now(): Processor
      reads this
    {
      Processor(tables, mem)
    }

    method ProcessBlock(b: Block, commits: bool) returns (ok: bool)
      modifies this
      ensures Now() == Processed(H, leaf, old(Now()), b, commits)
      ensures ok <==> b.num !in old(tables).blocks && Events(H, leaf, old(Now()), b).Done? && commits
      ensures !ok ==> tables == old(tables)
    {
      if b.num in tables.blocks {
        return false;
      }
      ghost var all := Events(H, leaf, Now(), b);
      var w := Work(tables.(blocks := tables.blocks + [b.num]), mem, 0);
      for i := 0 to |b.events|
        invariant unchanged(this)
        invariant all == Go(H, leaf, w, b.num, b.events[i..])
      {
        assert b.events[i..][0] == b.events[i] && b.events[i..][1..] == b.events[i + 1..];
        var r := DoEvent(H, leaf, w, b.num, b.events[i]);
        w := r.w;
        if r.Failed? {
          mem := w.mem.(lastIndex := w.mem.lastIndex - w.added);
          return false;
        }
      }
      mem := w.mem;
      if commits {
        tables := w.tables;
      }
      return commits;
    }

    method Reorg(from: nat, commits: bool)
      modifies this
      ensures Now() == Reorged(old(Now()), from, commits)
    {
      if commits {
        tables := Cut(tables, from);
      }
    }
  }

  // ----- the tables -----

  ghost predicate InTable(t: Tables, k: nat)
    requires k < |t.bridges|
  {
    t.bridges[k].bridge.depositCount == k && t.bridges[k].bridge.block in t.blocks
  }

  /** Deposit counts are 0..n-1 in block order, and every bridge and claim is in a stored block. */
  ghost predicate Inv(t: Tables) {
    && (forall i: nat, j: nat {:trigger t.blocks[i], t.blocks[j]} :: i < j < |t.blocks| ==> t.blocks[i] < t.blocks[j])
    && (forall i: nat {:trigger t.blocks[i]} :: i < |t.blocks| ==> 1 <= t.blocks[i])
    && (forall k: nat {:trigger InTable(t, k)} :: k < |t.bridges| ==> InTable(t, k))
    && B.Rising(t.bridges, BridgeBlock)
    && (forall k: nat {:trigger t.claims[k]} :: k < |t.claims| ==> t.claims[k].block in t.blocks)
  }

  /** The contract numbers deposits one after the other. */
  predicate Consecutive(events: seq<Event>, next: nat)
    decreases |events|
  {
    events == [] ||
    if events[0].bridge.Some?
    then events[0].bridge.value.bridge.depositCount == next && Consecutive(events[1..], next + 1)
    else Consecutive(events[1..], next)
  }

  function Deposits(events: seq<Event>): nat
    decreases |events|
  {
    if events == [] then 0 else (if events[0].bridge.Some? then 1 else 0) + Deposits(events[1..])
  }

  ghost predicate InOrder(t: Tables, b: Block) {
    && 1 <= b.num && (forall n :: n in t.blocks ==> n < b.num)
    && Consecutive(b.events, |t.bridges|) && |t.bridges| + Deposits(b.events) <= 0x1_0000_0000
  }

  lemma PushInv(t: Tables, row: BridgeRow, num: nat, exits: Db)
    requires Inv(t) && num in t.blocks && row.bridge.block == num && row.bridge.depositCount == |t.bridges|
    requires forall n :: n in t.blocks ==> n <= num
    ensures Inv(t.(exits := exits, bridges := t.bridges + [row]))
  {
    var u := t.(exits := exits, bridges := t.bridges + [row]);
    forall k: nat {:trigger InTable(u, k)} | k < |u.bridges|
      ensures InTable(u, k)
    {
      if k < |t.bridges| {
        assert InTable(t, k);
      }
    }
    assert t.bridges != [] ==> InTable(t, |t.bridges| - 1);
    B.RisingPush(t.bridges, row, BridgeBlock);
  }

  /** Inside the transaction: num is the last block. */
  ghost predicate WorkInv(w: Work, num: nat) {
    Inv(w.tables) && num in w.tables.blocks && forall n :: n in w.tables.blocks ==> n <= num
  }

  /** The leaves as the tree knows them. */
  function Known(leaf: Leaf, rows: seq<BridgeRow>): (r: seq<A.Entry>)
    ensures |r| == |rows|
    ensures forall k: nat {:trigger r[k]} :: k < |r| ==>
              r[k] == A.Entry(rows[k].bridge.block, 0, leaf(S.ExitOf(rows[k].bridge)))
  {
    seq(|rows|, k requires 0 <= k < |rows| => A.Entry(rows[k].bridge.block, 0, leaf(S.ExitOf(rows[k].bridge))))
  }

  function Handed(leaf: Leaf, e: Event): seq<A.Add> {
    if e.bridge.None? then []
    else [A.Add(0, e.bridge.value.bridge.depositCount, leaf(S.ExitOf(e.bridge.value.bridge)))]
  }

  /** The leaves that the events hand to the tree, up to the event that fails. */
  function Tried(H: Hasher, leaf: Leaf, w: Work, num: nat, events: seq<Event>): seq<A.Add>
    decreases |events|
  {
    if events == [] then []
    else
      var r := DoEvent(H, leaf, w, num, events[0]);
      Handed(leaf, events[0]) + if r.Failed? then [] else Tried(H, leaf, r.w, num, events[1..])
  }

  lemma DoEventInv(H: Hasher, leaf: Leaf, w: Work, num: nat, e: Event)
    requires WorkInv(w, num)
    requires e.bridge.Some? ==> e.bridge.value.bridge.depositCount == |w.tables.bridges|
    ensures var r := DoEvent(H, leaf, w, num, e);
            r.Done? ==>
              && WorkInv(r.w, num) && r.w.tables.blocks == w.tables.blocks
              && |r.w.tables.bridges| == |w.tables.bridges| + (if e.bridge.Some? then 1 else 0)
              && Known(leaf, r.w.tables.bridges) == Known(leaf, w.tables.bridges) + A.Entries(num, Handed(leaf, e))
  {
    hide A.AddLeaf, HasBridge, B.Rising;
    var a := if e.bridge.Some? then AddBridge(H, leaf, w, num, e.bridge.value) else Done(w);
    if e.bridge.Some? && a.Done? {
      var row := e.bridge.value;
      var stored := row.(bridge := row.bridge.(block := num));
      PushInv(w.tables, stored, num, a.w.tables.exits);
      assert S.ExitOf(stored.bridge) == S.ExitOf(row.bridge);
    }
    if a.Done? && e.claim.Some? {
      ClaimInv(a.w.tables, e.claim.value.(block := num));
    }
  }

  lemma ClaimInv(t: Tables, row: ClaimRow)
    requires Inv(t) && row.block in t.blocks
    ensures Inv(t.(claims := t.claims + [row]))
  {
    hide B.Rising;
    var u := t.(claims := t.claims + [row]);
    forall k: nat {:trigger InTable(u, k)} | k < |u.bridges|
      ensures InTable(u, k)
    {
      assert InTable(t, k);
    }
  }

  lemma {:induction false} GoInv(H: Hasher, leaf: Leaf, w: Work, num: nat, events: seq<Event>)
    requires WorkInv(w, num) && Consecutive(events, |w.tables.bridges|)
    ensures var r := Go(H, leaf, w, num, events);
            r.Done? ==>
              && Inv(r.w.tables)
              && Known(leaf, r.w.tables.bridges)
                 == Known(leaf, w.tables.bridges) + A.Entries(num, Tried(H, leaf, w, num, events))
    decreases |events|
  {
    hide DoEvent, Inv, Handed;
    if events == [] {
      assert Known(leaf, w.tables.bridges) + A.Entries(num, []) == Known(leaf, w.tables.bridges);
    } else {
      var e := events[0];
      DoEventInv(H, leaf, w, num, e);
      var r := DoEvent(H, leaf, w, num, e);
      if r.Done? {
        GoInv(H, leaf, r.w, num, events[1..]);
        var a, rest := Handed(leaf, e), Tried(H, leaf, r.w, num, events[1..]);
        assert A.Entries(num, a + rest) == A.Entries(num, a) + A.Entries(num, rest);
        assert Known(leaf, w.tables.bridges) + A.Entries(num, a) + A.Entries(num, rest)
            == Known(leaf, w.tables.bridges) + (A.Entries(num, a) + A.Entries(num, rest));
      }
    }
  }

  lemma BeginInv(p: Processor, b: Block)
    requires Inv(p.tables) && InOrder(p.tables, b)
    ensures WorkInv(Begin(p, b.num), b.num) && b.num !in p.tables.blocks
  {
    hide B.Rising;
    var t, was := Begin(p, b.num).tables, p.tables.blocks;
    assert t.blocks[|was|] == b.num;
    forall i: nat, j: nat {:trigger t.blocks[i], t.blocks[j]} | i < j < |t.blocks|
      ensures t.blocks[i] < t.blocks[j]
    {
      assert t.blocks[i] == was[i] && was[i] in was;
      assert j < |was| ==> t.blocks[j] == was[j];
    }
    forall k: nat {:trigger InTable(t, k)} | k < |t.bridges|
      ensures InTable(t, k)
    {
      assert InTable(p.tables, k);
    }
  }

  /** A reorg keeps exactly the blocks below it, and of each table the rows in them. */
  lemma CutInv(t: Tables, from: nat)
    requires Inv(t)
    ensures Inv(Cut(t, from))
    ensures forall n: nat :: n in Cut(t, from).blocks <==> n in t.blocks && n < from
    ensures forall r: BridgeRow :: r in Cut(t, from).bridges <==> r in t.bridges && r.bridge.block < from
    ensures forall c: ClaimRow :: c in Cut(t, from).claims <==> c in t.claims && c.block < from
  {
    hide B.Keep, DeleteFrom;
    var u := Cut(t, from);
    B.KeepCuts(t.blocks, Num, from);
    B.KeepCuts(t.bridges, BridgeBlock, from);
    forall n: nat
      ensures n in u.blocks <==> n in t.blocks && n < from
    {
      B.KeepHas(t.blocks, Num, from, n);
    }
    forall r: BridgeRow
      ensures r in u.bridges <==> r in t.bridges && r.bridge.block < from
    {
      B.KeepHas(t.bridges, BridgeBlock, from, r);
    }
    forall c: ClaimRow
      ensures c in u.claims <==> c in t.claims && c.block < from
    {
      B.KeepHas(t.claims, ClaimBlock, from, c);
    }
    forall k: nat {:trigger InTable(u, k)} | k < |u.bridges|
      ensures InTable(u, k)
    {
      assert u.bridges[k] == t.bridges[k] && InTable(t, k);
    }
    forall k: nat {:trigger u.claims[k]} | k < |u.claims|
      ensures u.claims[k].block in u.blocks
    {
      assert u.claims[k] in u.claims;
    }
  }

  // ----- the tree inside -----

  function Machine(p: Processor): A.Machine {
    A.Machine(p.tables.exits, p.mem)
  }

  /** One event: what the tree and its memory see of it. */
  lemma EventOnTree(H: Hasher, leaf: Leaf, w: Work, num: nat, e: Event, rest: seq<A.Add>)
    ensures var r, adds := DoEvent(H, leaf, w, num, e), Handed(leaf, e);
            && (r.Done? ==>
                  && r.w.added == w.added + |adds|
                  && A.AddAll(H, w.tables.exits, w.mem, num, adds + rest)
                     == (var more := A.AddAll(H, r.w.tables.exits, r.w.mem, num, rest);
                         more.(added := more.added + |adds|)))
            && (r.Failed? ==>
                  var a := A.AddAll(H, w.tables.exits, w.mem, num, adds);
                  a.mem == r.w.mem && r.w.added == w.added + a.added)
  {
    hide A.AddLeaf, A.AddAll, HasBridge;
    var adds := Handed(leaf, e);
    A.NoLeaves(H, w.tables.exits, w.mem, num);
    if e.bridge.Some? {
      var a := adds[0];
      var r := A.AddLeaf(H, w.tables.exits, w.mem, num, a.pos, a.index, a.hash);
      A.NoLeaves(H, r.db, r.mem, num);
      assert adds == [a] && [a] + [] == adds;
      A.AddAllOne(H, w.tables.exits, w.mem, num, a, rest);
      A.AddAllOne(H, w.tables.exits, w.mem, num, a, []);
    } else {
      assert adds + rest == rest;
    }
  }

  lemma {:induction false} GoOnTree(H: Hasher, leaf: Leaf, w: Work, num: nat, events: seq<Event>)
    ensures var r := Go(H, leaf, w, num, events);
            var a := A.AddAll(H, w.tables.exits, w.mem, num, Tried(H, leaf, w, num, events));
            && a.mem == r.w.mem && r.w.added == w.added + a.added
            && (r.Done? ==> a.ok && a.db == r.w.tables.exits)
    decreases |events|
  {
    hide A.AddAll, DoEvent, Handed;
    if events == [] {
      A.NoLeaves(H, w.tables.exits, w.mem, num);
    } else {
      var r := DoEvent(H, leaf, w, num, events[0]);
      var adds := Handed(leaf, events[0]);
      assert adds + [] == adds;
      if r.Done? {
        GoOnTree(H, leaf, r.w, num, events[1..]);
        EventOnTree(H, leaf, w, num, events[0], Tried(H, leaf, r.w, num, events[1..]));
      } else {
        EventOnTree(H, leaf, w, num, events[0], []);
      }
    }
  }

  /** The leaves that a block in order hands to the tree are in order for the tree. */
  lemma {:induction false} GoInOrder(H: Hasher, leaf: Leaf, w: Work, num: nat, events: seq<Event>)
    requires WorkInv(w, num) && Consecutive(events, |w.tables.bridges|)
    requires |w.tables.bridges| + Deposits(events) <= Pow2(HEIGHT)
    ensures A.InOrder(Known(leaf, w.tables.bridges), num, Tried(H, leaf, w, num, events), HEIGHT)
    decreases |events|
  {
    hide DoEvent, Pow2, B.Rising;
    if events != [] {
      var e := events[0];
      var r, es, a := DoEvent(H, leaf, w, num, e), Known(leaf, w.tables.bridges), Handed(leaf, e);
      DoEventInv(H, leaf, w, num, e);
      if r.Done? {
        GoInOrder(H, leaf, r.w, num, events[1..]);
      }
      var more := if r.Done? then Tried(H, leaf, r.w, num, events[1..]) else [];
      var all := Tried(H, leaf, w, num, events);
      if a == [] {
        assert all == more && A.Entries(num, a) == [] && es + [] == es;
      } else {
        assert all[0] == a[0] && all[1..] == more;
        assert A.Entries(num, a) == [A.Entry(num, a[0].pos, a[0].hash)];
        assert w.tables.bridges != [] ==> InTable(w.tables, |w.tables.bridges| - 1);
      }
    }
  }

  // ----- every run -----

  datatype Op = Feed(b: Block, commits: bool) | Reorg(from: nat, commits: bool) | Restart

  function Step(H: Hasher, leaf: Leaf, p: Processor, op: Op): Processor {
    match op
    case Feed(b, commits) => Processed(H, leaf, p, b, commits)
    case Reorg(from, commits) => Reorged(p, from, commits)
    case Restart => p.(mem := A.Mem(A.Blank(HEIGHT), -2))
  }

  function Run(H: Hasher, leaf: Leaf, p: Processor, ops: seq<Op>): Processor
    decreases |ops|
  {
    if ops == [] then p else Run(H, leaf, Step(H, leaf, p, ops[0]), ops[1..])
  }

  ghost predicate FedInOrder(H: Hasher, leaf: Leaf, p: Processor, ops: seq<Op>)
    decreases |ops|
  {
    ops == [] ||
    ((ops[0].Feed? ==> InOrder(p.tables, ops[0].b)) && FedInOrder(H, leaf, Step(H, leaf, p, ops[0]), ops[1..]))
  }

  /** The step of the append-only tree that a step of the processor is. */
  function TreeOps(H: Hasher, leaf: Leaf, p: Processor, op: Op): seq<A.Op> {
    match op
    case Feed(b, commits) =>
      if b.num in p.tables.blocks then []
      else [A.Block(b.num, Tried(H, leaf, Begin(p, b.num), b.num, b.events),
                    if Events(H, leaf, p, b).Failed? then A.LaterStepFails
                    else if commits then A.Commits else A.CommitFails)]
    case Reorg(from, commits) => if commits then [A.Reorg(from)] else []
    case Restart => [A.Restart]
  }

  function AllTreeOps(H: Hasher, leaf: Leaf, p: Processor, ops: seq<Op>): seq<A.Op>
    decreases |ops|
  {
    if ops == [] then [] else TreeOps(H, leaf, p, ops[0]) + AllTreeOps(H, leaf, Step(H, leaf, p, ops[0]), ops[1..])
  }

  lemma StepOnTree(H: Hasher, leaf: Leaf, p: Processor, op: Op)
    requires |p.mem.cache| == HEIGHT
    ensures var ops := TreeOps(H, leaf, p, op);
            && |ops| <= 1 && |Step(H, leaf, p, op).mem.cache| == HEIGHT
            && Machine(Step(H, leaf, p, op)) == if ops == [] then Machine(p) else A.Step(H, Machine(p), ops[0])
  {
    hide A.AddAll, Go, Tried;
    match op
    case Feed(b, commits) =>
      GoOnTree(H, leaf, Begin(p, b.num), b.num, b.events);
    case Reorg(_, _) =>
    case Restart =>
  }

  lemma {:induction false} KnownKept(leaf: Leaf, rows: seq<BridgeRow>, from: nat)
    ensures Known(leaf, B.Keep(rows, BridgeBlock, from)) == A.Kept(Known(leaf, rows), from)
    decreases |rows|
  {
    if rows == [] {
      assert Known(leaf, rows) == [];
    } else {
      var n := |rows| - 1;
      assert Known(leaf, rows)[..n] == Known(leaf, rows[..n]);
      KnownKept(leaf, rows[..n], from);
    }
  }

  /** One step: the tables stay in order, and the tree's surviving leaves are the rows of the bridge table. */
  lemma StepKeeps(H: Hasher, leaf: Leaf, p: Processor, op: Op)
    requires Inv(p.tables) && (op.Feed? ==> InOrder(p.tables, op.b))
    ensures Inv(Step(H, leaf, p, op).tables)
    ensures var ops := TreeOps(H, leaf, p, op);
            Known(leaf, Step(H, leaf, p, op).tables.bridges)
            == if ops == [] then Known(leaf, p.tables.bridges)
               else A.Survivors(H, Machine(p), Known(leaf, p.tables.bridges), ops[0])
  {
    hide A.AddAll, Go, Tried, Inv, Known, B.Keep, A.Kept;
    match op
    case Feed(b, commits) =>
      BeginInv(p, b);
      GoInv(H, leaf, Begin(p, b.num), b.num, b.events);
      GoOnTree(H, leaf, Begin(p, b.num), b.num, b.events);
    case Reorg(from, _) =>
      CutInv(p.tables, from);
      KnownKept(leaf, p.tables.bridges, from);
    case Restart =>
  }

  /** What is asked of the tree inside: no hash collision, no rollback beyond its bound, no uncertain rebuild. */
  ghost predicate TreeHarmless(H: Hasher, leaf: Leaf, p: Processor, ops: seq<Op>) {
    && A.HarmlessRun(H, HEIGHT, Machine(p), Known(leaf, p.tables.bridges), AllTreeOps(H, leaf, p, ops))
    && A.CertainRun(H, Machine(p), AllTreeOps(H, leaf, p, ops))
  }

  lemma StepInOrder(H: Hasher, leaf: Leaf, p: Processor, op: Op)
    requires Inv(p.tables) && (op.Feed? ==> InOrder(p.tables, op.b)) && Pow2(HEIGHT) == 0x1_0000_0000
    ensures var ops := TreeOps(H, leaf, p, op);
            ops != [] && ops[0].Block? ==> A.InOrder(Known(leaf, p.tables.bridges), ops[0].block, ops[0].adds, HEIGHT)
  {
    hide Go, Tried, A.InOrder, Inv, Known, Pow2;
    if op.Feed? {
      BeginInv(p, op.b);
      GoInOrder(H, leaf, Begin(p, op.b.num), op.b.num, op.b.events);
    }
  }

  lemma {:induction false} RunKeeps(H: Hasher, leaf: Leaf, p: Processor, ops: seq<Op>)
    requires Inv(p.tables) && FedInOrder(H, leaf, p, ops) && |p.mem.cache| == HEIGHT && TreeHarmless(H, leaf, p, ops)
    requires Pow2(HEIGHT) == 0x1_0000_0000
    ensures Inv(Run(H, leaf, p, ops).tables)
    ensures var all := AllTreeOps(H, leaf, p, ops);
            && A.AdmissibleRun(H, HEIGHT, Machine(p), Known(leaf, p.tables.bridges), all)
            && Machine(Run(H, leaf, p, ops)) == A.Run(H, Machine(p), all)
            && Known(leaf, Run(H, leaf, p, ops).tables.bridges)
               == A.RunSurvivors(H, Machine(p), Known(leaf, p.tables.bridges), all)
    decreases |ops|
  {
    hide Inv, Step, InOrder, TreeOps, A.Step, A.Survivors, Known, A.Harmless, A.CertainRebuild, A.InOrder, Pow2;
    if ops != [] {
      var q, t := Step(H, leaf, p, ops[0]), TreeOps(H, leaf, p, ops[0]);
      var rest := AllTreeOps(H, leaf, q, ops[1..]);
      StepOnTree(H, leaf, p, ops[0]);
      StepKeeps(H, leaf, p, ops[0]);
      StepInOrder(H, leaf, p, ops[0]);
      if t == [] {
        assert t + rest == rest;
      } else {
        assert (t + rest)[0] == t[0] && (t + rest)[1..] == rest;
      }
      RunKeeps(H, leaf, q, ops[1..]);
    }
  }

  // ----- what the certificate sender reads -----

  function LastBlock(t: Tables): nat {
    if t.blocks == [] then 0 else t.blocks[|t.blocks| - 1]
  }

  /** GetBridges, GetExitRootByIndex and GetLastProcessedBlock read these. */
  function ViewOf(t: Tables): S.View {
    S.View(seq(|t.bridges|, k requires 0 <= k < |t.bridges| => t.bridges[k].bridge),
           seq(|t.exits.roots|, k requires 0 <= k < |t.exits.roots| => t.exits.roots[k].hash), LastBlock(t))
  }

  lemma BlockInRange(t: Tables, k: nat)
    requires Inv(t) && k < |t.bridges|
    ensures 1 <= t.bridges[k].bridge.block <= LastBlock(t)
  {
    hide B.Rising;
    assert InTable(t, k);
    var i: nat :| i < |t.blocks| && t.blocks[i] == t.bridges[k].bridge.block;
    assert i < |t.blocks| - 1 ==> t.blocks[i] < t.blocks[|t.blocks| - 1];
  }

  lemma GoodIsInStep(H: Hasher, leaf: Leaf, t: Tables)
    requires Inv(t) && t.exits.roots == A.Rows(H, Known(leaf, t.bridges), HEIGHT)
    ensures S.InStep(H, leaf, ViewOf(t))
  {
    hide Root, A.Rows, A.Hashes;
    var v, es := ViewOf(t), Known(leaf, t.bridges);
    forall i: nat, j: nat {:trigger v.bridges[i], v.bridges[j]} | i < j < |v.bridges|
      ensures v.bridges[i].block <= v.bridges[j].block
    {
      assert BridgeBlock(t.bridges[i]) <= BridgeBlock(t.bridges[j]);
    }
    forall i: nat {:trigger v.bridges[i]} | i < |v.bridges|
      ensures v.bridges[i].depositCount == i && 1 <= v.bridges[i].block <= v.last
    {
      assert InTable(t, i);
      BlockInRange(t, i);
    }
    forall i: nat {:trigger v.roots[i]} | i < |v.roots|
      ensures v.roots[i] == S.ExitRoot(H, leaf, v.bridges[..i + 1])
    {
      assert t.exits.roots[i].hash == Root(H, Listed(A.Hashes(es[..i + 1])), HEIGHT);
      assert A.Hashes(es[..i + 1]) == S.LeafHashes(leaf, v.bridges[..i + 1]);
    }
  }

  lemma FreshInv()
    ensures Inv(Fresh().tables)
  {}

  /** The tables and the tree inside are as the rows of the bridge table say. */
  ghost predicate Consistent(H: Hasher, leaf: Leaf, p: Processor) {
    Inv(p.tables) && A.Good(H, HEIGHT, Machine(p), Known(leaf, p.tables.bridges))
  }

  lemma FreshConsistent(H: Hasher, leaf: Leaf)
    requires CollisionFree(H, ZeroNodes(H, HEIGHT))
    ensures Consistent(H, leaf, Fresh())
  {
    FreshInv();
    assert Known(leaf, []) == [];
    A.FreshGood(H, HEIGHT);
  }

  lemma RunConsistent(H: Hasher, leaf: Leaf, p: Processor, ops: seq<Op>)
    requires Consistent(H, leaf, p) && FedInOrder(H, leaf, p, ops) && TreeHarmless(H, leaf, p, ops)
    ensures Consistent(H, leaf, Run(H, leaf, p, ops))
  {
    hide Run, AllTreeOps, FedInOrder, A.Run, A.AdmissibleRun, A.GoodDb, TreeHarmless, Inv, Known, Pow2;
    A.FullTree();
    RunKeeps(H, leaf, p, ops);
    A.RunGood(H, HEIGHT, Machine(p), Known(leaf, p.tables.bridges), AllTreeOps(H, leaf, p, ops));
  }

  lemma ConsistentInStep(H: Hasher, leaf: Leaf, p: Processor)
    requires Consistent(H, leaf, p)
    ensures Inv(p.tables) && S.InStep(H, leaf, ViewOf(p.tables))
    ensures var b := ViewOf(p.tables).last; b == 0 || b in p.tables.blocks
  {
    hide Inv, Holds, A.GoodMem, S.InStep, Known;
    GoodIsInStep(H, leaf, p.tables);
  }

  /**
   Over every run of blocks in order, failed blocks, reorgs and restarts that is harmless for the tree, what the
   certificate sender reads is in step: deposit counts 0..n-1 in block order, and with each the root of the exit
   tree of all deposits up to it.
   */
  lemma ViewIsInStep(H: Hasher, leaf: Leaf, ops: seq<Op>)
    requires FedInOrder(H, leaf, Fresh(), ops) && CollisionFree(H, ZeroNodes(H, HEIGHT))
    requires TreeHarmless(H, leaf, Fresh(), ops)
    ensures S.InStep(H, leaf, ViewOf(Run(H, leaf, Fresh(), ops).tables))
  {
    hide Run, FedInOrder, TreeHarmless, Consistent, S.InStep;
    FreshConsistent(H, leaf);
    RunConsistent(H, leaf, Fresh(), ops);
    ConsistentInStep(H, leaf, Run(H, leaf, Fresh(), ops));
  }
}
