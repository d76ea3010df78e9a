/**
 The processor of the L1 info tree: blocks of events go into the tables in one transaction each, a reorg deletes
 blocks, and a failed sanity check halts it. The L1 info tree and the rollup exit tree are those of the modules
 AppendOnlyTree and VerifyBatches, memory outside the transaction included.
 */
module L1InfoProcessor {
  import opened Merkle
  import opened NodeTable
  import opened Wrappers
  import A = AppendOnlyTree
  import V = VerifyBatches
  import B = BlockRows

  // ----- events and tables -----

  datatype Update = Update(pos: nat, mainnetExitRoot: Hash, rollupExitRoot: Hash, parentHash: Hash, timestamp: nat)

  datatype UpdateV2 = UpdateV2(currentRoot: Hash, leafCount: nat)

  datatype Init = Init(leafCount: nat, currentRoot: Hash)

  datatype Event = Event(update: Option<Update>, updateV2: Option<UpdateV2>, verify: Option<V.Event>,
    init: Option<Init>)

  datatype Block = Block(num: nat, events: seq<Event>)

  /** A row of l1info_leaf. */
  datatype Leaf = Leaf(block: nat, pos: nat, position: nat, previousBlockHash: Hash, timestamp: nat,
                       mainnetExitRoot: Hash, rollupExitRoot: Hash, globalExitRoot: Hash, hash: Hash)

  /** `leaves` is ordered by (block, pos). */
  datatype Tables = Tables(blocks: set<nat>, leaves: seq<Leaf>, info: Db, exits: V.State, initial: Option<(nat, Init)>)

  datatype Processor = Processor(tables: Tables, mem: A.Mem, halted: bool)

  const HEIGHT: nat := 32

  /** The hash of a leaf from its global exit root, previous block hash and timestamp. */
  type LeafHasher = (Hash, Hash, nat) -> Hash

  function NewLeaf(H: Hasher, L: LeafHasher, block: nat, u: Update, index: nat): Leaf {
    var ger := H(u.mainnetExitRoot, u.rollupExitRoot);
    Leaf(block, u.pos, index, u.parentHash, u.timestamp, u.mainnetExitRoot, u.rollupExitRoot, ger,
      L(ger, u.parentHash, u.timestamp))
  }

  predicate Precedes(a: Leaf, b: Leaf) {
    a.block < b.block || (a.block == b.block && a.pos < b.pos)
  }

  /** Primary key (block_num, block_pos); global_exit_root is unique. */
  predicate Clashes(leaves: seq<Leaf>, l: Leaf) {
    exists k: nat {:trigger leaves[k]} :: k < |leaves| &&
      ((leaves[k].block == l.block && leaves[k].pos == l.pos) || leaves[k].globalExitRoot == l.globalExitRoot)
  }

  // ----- one block -----

  /** Inside the transaction; `added` leaves have registered a rollback callback. */
  datatype Work = Work(tables: Tables, mem: A.Mem, added: nat)

  datatype Outcome = Done(w: Work) | Failed(w: Work) | Inconsistent(w: Work)

  function AddInfo(H: Hasher, L: LeafHasher, w: Work, num: nat, first: nat, u: Update): Outcome {
    var index := Wrap32(first + w.added);
    var leaf := NewLeaf(H, L, num, u, index);
    if Clashes(w.tables.leaves, leaf) then Failed(w)
    else
      var r := A.AddLeaf(H, w.tables.info, w.mem, num, u.pos, index, leaf.hash);
      if !r.ok then Failed(w.(mem := r.mem))
      else Done(Work(w.tables.(leaves := B.Insert(w.tables.leaves, leaf, Precedes), info := r.db), r.mem, w.added + 1))
  }

  function CheckV2(w: Work, v2: UpdateV2): Outcome {
    var roots := w.tables.info.roots;
    if roots == [] then Failed(w)
    else
      var root := roots[|roots| - 1];
      if root.hash != v2.currentRoot || Wrap32(root.index + 1) != v2.leafCount then Inconsistent(w) else Done(w)
  }

  function Verify(H: Hasher, w: Work, num: nat, e: V.Event): Outcome {
    var r := V.Process(H, w.tables.exits, e.(block := num), HEIGHT);
    if r.None? then Failed(w) else Done(w.(tables := w.tables.(exits := r.value)))
  }

  function SetInitial(w: Work, num: nat, i: Init): Outcome {
    if w.tables.initial.Some? then Failed(w) else Done(w.(tables := w.tables.(initial := Some((num, i)))))
  }

  /** What an event does after its update of the L1 info tree. */
  function Checks(H: Hasher, w: Work, num: nat, e: Event): Outcome {
    var a := if e.updateV2.Some? then CheckV2(w, e.updateV2.value) else Done(w);
    if !a.Done? then a
    else
      var b := if e.verify.Some? then Verify(H, a.w, num, e.verify.value) else a;
      if !b.Done? then b else if e.init.Some? then SetInitial(b.w, num, e.init.value) else b
  }

  function DoEvent(H: Hasher, L: LeafHasher, w: Work, num: nat, first: nat, e: Event): Outcome {
    var a := if e.update.Some? then AddInfo(H, L, w, num, first, e.update.value) else Done(w);
    if !a.Done? then a else Checks(H, a.w, num, e)
  }

  function Go(H: Hasher, L: LeafHasher, w: Work, num: nat, first: nat, events: seq<Event>): Outcome
    decreases |events|
  {
    if events == [] then Done(w)
    else
      var r := DoEvent(H, L, w, num, first, events[0]);
      if !r.Done? then r else Go(H, L, r.w, num, first, events[1..])
  }

  /** getLastIndex and what follows it. */
  function FirstIndex(leaves: seq<Leaf>): nat {
    if leaves == [] then 0 else Wrap32(leaves[|leaves| - 1].position + 1)
  }

  function Begin(p: Processor, num: nat): Work {
    Work(p.tables.(blocks := p.tables.blocks + {num}), p.mem, 0)
  }

  function Events(H: Hasher, L: LeafHasher, p: Processor, b: Block): Outcome {
    Go(H, L, Begin(p, b.num), b.num, FirstIndex(p.tables.leaves), b.events)
  }

  predicate Accepts(H: Hasher, L: LeafHasher, p: Processor, b: Block, commits: bool) {
    !p.halted && b.num !in p.tables.blocks && Events(H, L, p, b).Done? && commits
  }

  /** The rollback callbacks: one step back for each leaf added. */
  function RolledBack(w: Work): A.Mem {
    w.mem.(lastIndex := w.mem.lastIndex - w.added)
  }

  function Processed(H: Hasher, L: LeafHasher, p: Processor, b: Block, commits: bool): Processor {
    if p.halted || b.num in p.tables.blocks then p
    else
      match Events(H, L, p, b)
      case Done(w) => if commits then Processor(w.tables, w.mem, false) else p.(mem := w.mem)
      case Failed(w) => p.(mem := RolledBack(w))
      case Inconsistent(w) => Processor(p.tables, RolledBack(w), true)
  }

  // ----- reorg -----

  function LeafBlock(l: Leaf): nat {
    l.block
  }

  function KeptLeaves(leaves: seq<Leaf>, from: nat): (r: seq<Leaf>) {
    B.Keep(leaves, LeafBlock, from)
  }

  /** DELETE on the blocks, with its cascade, and on the roots of both trees. */
  function Cut(t: Tables, from: nat): Tables {
    Tables((set b | b in t.blocks && b < from), KeptLeaves(t.leaves, from),
      Db(t.info.rht, DeleteFrom(t.info.roots, from)),
           V.State(Db(t.exits.db.rht, DeleteFrom(t.exits.db.roots, from)), V.DeleteRows(t.exits.verified, from)),
           if t.initial.Some? && t.initial.value.0 >= from then None else t.initial)
  }

  predicate Deletes(t: Tables, from: nat) {
    exists b :: b in t.blocks && from <= b
  }

  function Reorged(p: Processor, from: nat, commits: bool): Processor {
    if !commits then p else Processor(Cut(p.tables, from), p.mem, p.halted && !Deletes(p.tables, from))
  }

  datatype Error = NoError | ErrInconsistentState | OtherError

  class L1InfoTreeProcessor {
    const H: Hasher
    const L: LeafHasher
    var tables: Tables
    var mem: A.Mem
    var halted: bool

    constructor (H: Hasher, L: LeafHasher)
      ensures this.H == H && this.L == L
      ensures Now() == Fresh()
    {
      this.H, this.L := H, L;
      tables := Tables({}, [], Db(map[], []), V.State(Db(map[], []), []), None);
      mem := A.Mem(A.Blank(HEIGHT), -2);
      halted := false;
    }

    ghost function Now(): Processor
      reads this
    {
      Processor(tables, mem, halted)
    }

    method ProcessBlock(b: Block, commits: bool) returns (err: Error)
      modifies this
      ensures Now() == Processed(H, L, old(Now()), b, commits)
      ensures err == NoError <==> Accepts(H, L, old(Now()), b, commits)
      ensures err != NoError ==> tables == old(tables)
      ensures err == ErrInconsistentState <==> halted
    {
      if halted {
        return ErrInconsistentState;
      }
      if b.num in tables.blocks {
        return OtherError;
      }
      ghost var all := Events(H, L, Now(), b);
      var first := FirstIndex(tables.leaves);
      var w := Work(tables.(blocks := tables.blocks + {b.num}), mem, 0);
      for i := 0 to |b.events|
        invariant unchanged(this)
        invariant all == Go(H, L, w, b.num, first, b.events[i..])
      {
        assert b.events[i..][0] == b.events[i] && b.events[i..][1..] == b.events[i + 1..];
        var r := DoEvent(H, L, w, b.num, first, b.events[i]);
        if !r.Done? {
          mem := RolledBack(r.w);
          if r.Inconsistent? {
            halted := true;
            return ErrInconsistentState;
          }
          return OtherError;
        }
        w := r.w;
      }
      mem := w.mem;
      if !commits {
        return OtherError;
      }
      tables := w.tables;
      return NoError;
    }

    method Reorg(from: nat, commits: bool)
      modifies this
      ensures Now() == Reorged(old(Now()), from, commits)
    {
      if commits {
        var deleted := set b | b in tables.blocks && from <= b;
        assert deleted != {} <==> Deletes(tables, from) by {
          if Deletes(tables, from) {
            var b :| b in tables.blocks && from <= b;
            assert b in deleted;
          } else {
            assert forall b :: b !in deleted;
          }
        }
        tables := Cut(tables, from);
        if deleted != {} {
          halted := false;
        }
      }
    }
  }

  function Fresh(): Processor {
    Processor(Tables({}, [], Db(map[], []), V.State(Db(map[], []), []), None), A.Mem(A.Blank(HEIGHT), -2), false)
  }

  // ----- the invariant of the tables -----

  /** Positions are 0..n-1 in (block, pos) order, and the root table has one row for each leaf. */
  ghost predicate Numbered(t: Tables) {
    && |t.info.roots| == |t.leaves| < 0x1_0000_0000
    && (forall i: nat {:trigger t.leaves[i]} :: i < |t.leaves| ==> t.leaves[i].position == i)
    && (forall i: nat, j: nat {:trigger t.leaves[i], t.leaves[j]} :: i < j < |t.leaves| ==>
          Precedes(t.leaves[i], t.leaves[j]))
    && (forall i: nat {:trigger t.info.roots[i]} :: i < |t.leaves| ==>
          t.info.roots[i].index == i && t.info.roots[i].block == t.leaves[i].block
            && t.info.roots[i].pos == t.leaves[i].pos)
  }

  /** Every row belongs to a stored block. */
  ghost predicate Within(t: Tables) {
    && (forall i: nat {:trigger t.leaves[i]} :: i < |t.leaves| ==> t.leaves[i].block in t.blocks)
    && B.Within(t.exits.db.roots, BlockOf, t.blocks) && B.Within(t.exits.verified, V.RowBlock, t.blocks)
    && (t.initial.Some? ==> t.initial.value.0 in t.blocks)
  }

  ghost predicate Inv(t: Tables) {
    Numbered(t) && Within(t)
  }

  // ----- a block fed in order -----

  /** The updates among the events have rising positions above lo. */
  predicate Rising(events: seq<Event>, lo: int)
    decreases |events|
  {
    events == [] ||
    if events[0].update.Some? then lo < events[0].update.value.pos && Rising(events[1..], events[0].update.value.pos)
    else Rising(events[1..], lo)
  }

  function Updates(events: seq<Event>): nat
    decreases |events|
  {
    if events == [] then 0 else (if events[0].update.Some? then 1 else 0) + Updates(events[1..])
  }

  /** What the sync driver promises: a block above all stored ones, its logs in order, and a tree that is not full. */
  ghost predicate InOrder(t: Tables, b: Block) {
    && (forall n :: n in t.blocks ==> n < b.num)
    && Rising(b.events, -1)
    && |t.leaves| + Updates(b.events) < 0x1_0000_0000
  }

  /** All leaves come before position lo + 1 of block num. */
  ghost predicate Before(leaves: seq<Leaf>, num: nat, lo: int) {
    forall i: nat {:trigger leaves[i]} :: i < |leaves| ==>
      leaves[i].block < num || (leaves[i].block == num && leaves[i].pos <= lo)
  }

  ghost predicate WorkInv(w: Work, num: nat, first: nat, lo: int) {
    && Inv(w.tables) && num in w.tables.blocks && first + w.added == |w.tables.leaves|
       && Before(w.tables.leaves, num, lo)
  }

  /** A leaf keeps the positions in (block, pos) order exactly when it comes after all leaves so far. */
  lemma InsertedInPlaceIff(leaves: seq<Leaf>, l: Leaf)
    requires l.position == |leaves| && InPlace(leaves)
    ensures InPlace(B.Insert(leaves, l, Precedes)) <==> leaves == [] || Precedes(leaves[|leaves| - 1], l)
  {
    hide B.Insert, Precedes;
    B.InsertStep(leaves, l, Precedes);
    var r := B.Insert(leaves, l, Precedes);
    if leaves != [] && !Precedes(leaves[|leaves| - 1], l) {
      assert r[|leaves|] == leaves[|leaves| - 1];
    }
  }

  ghost predicate InPlace(leaves: seq<Leaf>) {
    forall i: nat {:trigger leaves[i]} :: i < |leaves| ==> leaves[i].position == i
  }

  /** The tree, if it takes the leaf, gets one more root with its index, block and position. */
  lemma AddLeafRow(H: Hasher, db: Db, mem: A.Mem, block: nat, pos: nat, index: nat, leaf: Hash)
    ensures var r := A.AddLeaf(H, db, mem, block, pos, index, leaf);
            r.ok ==> |r.db.roots| == |db.roots| + 1 && r.db.roots[..|db.roots|] == db.roots
                     && r.db.roots[|db.roots|].index == index && r.db.roots[|db.roots|].block == block
                     && r.db.roots[|db.roots|].pos == pos
  {
    hide Met, Climb, Path, PutAll, A.Prepared, A.Recached;
  }

  lemma PushNumbered(t: Tables, l: Leaf, db: Db)
    requires Numbered(t) && |t.leaves| + 1 < 0x1_0000_0000 && l.position == |t.leaves|
    requires t.leaves == [] || Precedes(t.leaves[|t.leaves| - 1], l)
    requires |db.roots| == |t.leaves| + 1 && db.roots[..|t.leaves|] == t.info.roots
    requires db.roots[|t.leaves|].index == l.position && db.roots[|t.leaves|].block == l.block
             && db.roots[|t.leaves|].pos == l.pos
    ensures Numbered(t.(leaves := B.Insert(t.leaves, l, Precedes), info := db))
  {
    var n := |t.leaves|;
    forall i: nat {:trigger db.roots[i]} | i < n
      ensures db.roots[i] == t.info.roots[i]
    {
      assert db.roots[..n][i] == db.roots[i];
    }
    assert B.Insert(t.leaves, l, Precedes) == t.leaves + [l];
  }

  lemma AddInfoInv(H: Hasher, L: LeafHasher, w: Work, num: nat, first: nat, u: Update, lo: int)
    requires WorkInv(w, num, first, lo) && lo < u.pos && |w.tables.leaves| + 1 < 0x1_0000_0000
    ensures var r := AddInfo(H, L, w, num, first, u);
            r.Done? ==> WorkInv(r.w, num, first, u.pos) && |r.w.tables.leaves| == |w.tables.leaves| + 1
  {
    hide A.AddLeaf, Clashes;
    var n := |w.tables.leaves|;
    var leaf := NewLeaf(H, L, num, u, Wrap32(first + w.added));
    AddLeafRow(H, w.tables.info, w.mem, num, u.pos, n, leaf.hash);
    var r := A.AddLeaf(H, w.tables.info, w.mem, num, u.pos, n, leaf.hash);
    if r.ok {
      PushNumbered(w.tables, leaf, r.db);
      assert B.Insert(w.tables.leaves, leaf, Precedes) == w.tables.leaves + [leaf];
    }
  }

  lemma VerifyWithin(H: Hasher, s: V.State, e: V.Event, blocks: set<nat>)
    requires B.Within(s.db.roots, BlockOf, blocks) && B.Within(s.verified, V.RowBlock, blocks) && e.block in blocks
    ensures var r := V.Process(H, s, e, HEIGHT);
            r.Some? ==> B.Within(r.value.db.roots, BlockOf, blocks) && B.Within(r.value.verified, V.RowBlock, blocks)
  {
    hide Siblings, Climb, PutAll, Path, V.Skipped, V.HasKey;
  }

  /** The checks after an update leave the L1 info tree and its leaves alone. */
  lemma ChecksInv(H: Hasher, w: Work, num: nat, e: Event)
    requires Inv(w.tables) && num in w.tables.blocks
    ensures var r := Checks(H, w, num, e);
            && Inv(r.w.tables)
            && r.w.tables.leaves == w.tables.leaves && r.w.tables.info == w.tables.info
               && r.w.tables.blocks == w.tables.blocks
            && r.w.mem == w.mem && r.w.added == w.added
  {
    hide V.Process;
    if e.verify.Some? {
      VerifyWithin(H, w.tables.exits, e.verify.value.(block := num), w.tables.blocks);
    }
  }

  /** Rows are only added: those of t are the first ones of u. */
  ghost predicate Extends(t: Tables, u: Tables) {
    && u.blocks == t.blocks && |t.leaves| <= |u.leaves| && u.leaves[..|t.leaves|] == t.leaves
    && |t.info.roots| <= |u.info.roots| && u.info.roots[..|t.info.roots|] == t.info.roots
  }

  lemma ExtendsOn(t: Tables, u: Tables, v: Tables)
    requires Extends(t, u) && Extends(u, v)
    ensures Extends(t, v)
  {
    assert v.leaves[..|t.leaves|] == v.leaves[..|u.leaves|][..|t.leaves|];
    assert v.info.roots[..|t.info.roots|] == v.info.roots[..|u.info.roots|][..|t.info.roots|];
  }

  function NextLo(e: Event, lo: int): int {
    if e.update.Some? then e.update.value.pos else lo
  }

  /** The event's sanity check, if it has one, passed on these tables. */
  ghost predicate Matched(t: Tables, n: nat, v2: UpdateV2) {
    0 < n <= |t.info.roots| && t.info.roots[n - 1].hash == v2.currentRoot && v2.leafCount == n
  }

  lemma AddInfoExtends(H: Hasher, L: LeafHasher, w: Work, num: nat, first: nat, u: Update, lo: int)
    requires WorkInv(w, num, first, lo) && lo < u.pos && |w.tables.leaves| + 1 < 0x1_0000_0000
    ensures var r := AddInfo(H, L, w, num, first, u);
            r.Done? ==> Extends(w.tables, r.w.tables)
                        && r.w.tables.leaves == w.tables.leaves + [NewLeaf(H, L, num, u, |w.tables.leaves|)]
  {
    hide A.AddLeaf, Clashes;
    var leaf := NewLeaf(H, L, num, u, Wrap32(first + w.added));
    AddLeafRow(H, w.tables.info, w.mem, num, u.pos, |w.tables.leaves|, leaf.hash);
    assert B.Insert(w.tables.leaves, leaf, Precedes) == w.tables.leaves + [leaf];
  }

  lemma V2Checked(H: Hasher, w: Work, num: nat, e: Event)
    requires Numbered(w.tables) && Checks(H, w, num, e).Done? && e.updateV2.Some?
    ensures Matched(w.tables, |w.tables.leaves|, e.updateV2.value)
  {
    hide V.Process;
    assert CheckV2(w, e.updateV2.value).Done?;
  }

  lemma DoEventInv(H: Hasher, L: LeafHasher, w: Work, num: nat, first: nat, e: Event, lo: int)
    requires WorkInv(w, num, first, lo)
    requires e.update.Some? ==> lo < e.update.value.pos && |w.tables.leaves| + 1 < 0x1_0000_0000
    ensures var r := DoEvent(H, L, w, num, first, e);
            r.Done? ==>
              && WorkInv(r.w, num, first, NextLo(e, lo)) && Extends(w.tables, r.w.tables)
              && |r.w.tables.leaves| == |w.tables.leaves| + (if e.update.Some? then 1 else 0)
              && (e.updateV2.Some? ==> Matched(r.w.tables, |r.w.tables.leaves|, e.updateV2.value))
  {
    hide AddInfo, Checks, Numbered, Within, Matched;
    var a := if e.update.Some? then AddInfo(H, L, w, num, first, e.update.value) else Done(w);
    if e.update.Some? {
      AddInfoInv(H, L, w, num, first, e.update.value, lo);
      AddInfoExtends(H, L, w, num, first, e.update.value, lo);
    }
    if a.Done? {
      ChecksInv(H, a.w, num, e);
      if Checks(H, a.w, num, e).Done? && e.updateV2.Some? {
        V2Checked(H, a.w, num, e);
        MatchedFrame(a.w.tables, Checks(H, a.w, num, e).w.tables, |a.w.tables.leaves|, e.updateV2.value);
      }
    }
  }

  lemma MatchedFrame(t: Tables, u: Tables, n: nat, v2: UpdateV2)
    requires Matched(t, n, v2) && Extends(t, u)
    ensures Matched(u, n, v2)
  {
    assert u.info.roots[n - 1] == u.info.roots[..|t.info.roots|][n - 1];
  }

  /** The events of a block in order: everything they keep. */
  lemma {:induction false} GoInv(H: Hasher, L: LeafHasher, w: Work, num: nat, first: nat, events: seq<Event>, lo: int)
    requires WorkInv(w, num, first, lo) && Rising(events, lo) && |w.tables.leaves| + Updates(events) < 0x1_0000_0000
    ensures var r := Go(H, L, w, num, first, events);
            r.Done? ==> Inv(r.w.tables) && Extends(w.tables, r.w.tables)
                        && |r.w.tables.leaves| == |w.tables.leaves| + Updates(events)
    decreases |events|
  {
    hide DoEvent, Inv, Before;
    if events != [] {
      var e := events[0];
      DoEventInv(H, L, w, num, first, e, lo);
      var r := DoEvent(H, L, w, num, first, e);
      if r.Done? {
        GoInv(H, L, r.w, num, first, events[1..], NextLo(e, lo));
        var last := Go(H, L, r.w, num, first, events[1..]);
        if last.Done? {
          ExtendsOn(w.tables, r.w.tables, last.w.tables);
        }
      }
    }
  }

  /** How many leaves the block has added once event k has added its own. */
  function UpdatesThrough(events: seq<Event>, k: nat): nat
    requires k < |events|
    decreases |events|
  {
    (if events[0].update.Some? then 1 else 0) + if k == 0 then 0 else UpdatesThrough(events[1..], k - 1)
  }

  lemma {:induction false} GoMatched(
    H: Hasher, L: LeafHasher, w: Work, num: nat, first: nat, events: seq<Event>, lo: int, k: nat)
    requires WorkInv(w, num, first, lo) && Rising(events, lo) && |w.tables.leaves| + Updates(events) < 0x1_0000_0000
    requires k < |events| && events[k].updateV2.Some? && Go(H, L, w, num, first, events).Done?
    ensures Matched(Go(H, L, w, num, first, events).w.tables, |w.tables.leaves| + UpdatesThrough(events, k),
            events[k].updateV2.value)
    decreases |events|
  {
    hide DoEvent, Inv, Before, Matched;
    var e := events[0];
    DoEventInv(H, L, w, num, first, e, lo);
    var r := DoEvent(H, L, w, num, first, e).w;
    GoInv(H, L, r, num, first, events[1..], NextLo(e, lo));
    if k == 0 {
      MatchedFrame(r.tables, Go(H, L, r, num, first, events[1..]).w.tables, |r.tables.leaves|, e.updateV2.value);
    } else {
      GoMatched(H, L, r, num, first, events[1..], NextLo(e, lo), k - 1);
    }
  }

  lemma BeginInv(p: Processor, b: Block)
    requires Inv(p.tables) && InOrder(p.tables, b)
    ensures WorkInv(Begin(p, b.num), b.num, FirstIndex(p.tables.leaves), -1)
  {}

  /**
   An accepted block in order keeps the invariant, and each of its sanity checks matched root and count at that
   point.
   */
  lemma AcceptedInv(H: Hasher, L: LeafHasher, p: Processor, b: Block, commits: bool)
    requires Inv(p.tables) && InOrder(p.tables, b)
    ensures var q := Processed(H, L, p, b, commits);
            && Inv(q.tables)
            && (!Accepts(H, L, p, b, commits) ==> q.tables == p.tables)
            && (Accepts(H, L, p, b, commits) ==> |q.tables.leaves| == |p.tables.leaves| + Updates(b.events)
                                                 && q.tables.blocks == p.tables.blocks + {b.num})
  {
    hide Inv, Go;
    BeginInv(p, b);
    GoInv(H, L, Begin(p, b.num), b.num, FirstIndex(p.tables.leaves), b.events, -1);
  }

  lemma AcceptedMatched(H: Hasher, L: LeafHasher, p: Processor, b: Block, k: nat)
    requires Inv(p.tables) && InOrder(p.tables, b) && Accepts(H, L, p, b, true)
    requires k < |b.events| && b.events[k].updateV2.Some?
    ensures Matched(Processed(H, L, p, b, true).tables, |p.tables.leaves| + UpdatesThrough(b.events, k),
            b.events[k].updateV2.value)
  {
    hide Inv, Go, Matched;
    BeginInv(p, b);
    GoMatched(H, L, Begin(p, b.num), b.num, FirstIndex(p.tables.leaves), b.events, -1, k);
  }

  // ----- reorgs -----

  lemma RootsOrdered(t: Tables)
    requires Numbered(t)
    ensures NodeTable.Ordered(t.info.roots)
  {
    var roots := t.info.roots;
    forall i: nat, j: nat {:trigger roots[i], roots[j]} | i < j < |roots|
      ensures NodeTable.Before(roots[i], roots[j])
    {
      assert Precedes(t.leaves[i], t.leaves[j]);
    }
  }

  /** A reorg cuts off the leaves from that block on, and the roots with them. */
  lemma RootsCut(t: Tables, from: nat)
    requires Numbered(t)
    ensures var n := |KeptLeaves(t.leaves, from)|;
            && n <= |t.leaves| && KeptLeaves(t.leaves, from) == t.leaves[..n]
            && DeleteFrom(t.info.roots, from) == t.info.roots[..n]
            && forall i: nat {:trigger t.leaves[i]} :: i < |t.leaves| ==> (i < n <==> t.leaves[i].block < from)
  {
    hide B.Keep;
    RootsOrdered(t);
    OrderedIsCertain(t.info.roots);
    B.KeepTogether(t.leaves, LeafBlock, t.info.roots, BlockOf, from);
  }

  lemma CutInv(t: Tables, from: nat)
    requires Inv(t)
    ensures Inv(Cut(t, from))
    ensures forall n :: n in Cut(t, from).blocks <==> n in t.blocks && n < from
    ensures forall b: nat, i: Init :: Cut(t, from).initial == Some((b, i)) <==> t.initial == Some((b, i)) && b < from
  {
    hide B.Keep;
    RootsCut(t, from);
    B.KeepWithin(t.exits.db.roots, BlockOf, from, t.blocks);
    B.KeepWithin(t.exits.verified, V.RowBlock, from, t.blocks);
  }

  /** A reorg that deletes no block deletes nothing at all. */
  lemma CutNothing(t: Tables, from: nat)
    requires Inv(t) && !Deletes(t, from)
    ensures Cut(t, from) == t
  {
    hide B.Keep;
    assert forall b :: b in t.blocks ==> b < from;
    assert (set b | b in t.blocks && b < from) == t.blocks;
    B.KeepAll(t.leaves, LeafBlock, from);
    RootsCut(t, from);
    B.KeepWithin(t.exits.db.roots, BlockOf, from, t.blocks);
    B.KeepWithin(t.exits.verified, V.RowBlock, from, t.blocks);
  }

  // ----- every run -----

  datatype Op = Feed(b: Block, commits: bool) | Reorg(from: nat, commits: bool) | Restart

  function Step(H: Hasher, L: LeafHasher, p: Processor, op: Op): Processor {
    match op
    case Feed(b, commits) => Processed(H, L, p, b, commits)
    case Reorg(from, commits) => Reorged(p, from, commits)
    case Restart => Processor(p.tables, A.Mem(A.Blank(HEIGHT), -2), false)
  }

  function Run(H: Hasher, L: LeafHasher, p: Processor, ops: seq<Op>): Processor
    decreases |ops|
  {
    if ops == [] then p else Run(H, L, Step(H, L, p, ops[0]), ops[1..])
  }

  ghost predicate FedInOrder(H: Hasher, L: LeafHasher, p: Processor, ops: seq<Op>)
    decreases |ops|
  {
    ops == [] || ((ops[0].Feed? ==> InOrder(p.tables, ops[0].b)) && FedInOrder(H, L, Step(H, L, p, ops[0]), ops[1..]))
  }

  lemma StepInv(H: Hasher, L: LeafHasher, p: Processor, op: Op)
    requires Inv(p.tables) && (op.Feed? ==> InOrder(p.tables, op.b))
    ensures Inv(Step(H, L, p, op).tables)
  {
    hide Inv, Processed, Cut, InOrder;
    match op
    case Feed(b, commits) => AcceptedInv(H, L, p, b, commits);
    case Reorg(from, _) => CutInv(p.tables, from);
    case Restart =>
  }

  /** Over every run: positions 0..n-1 in (block, pos) order, one root for each, every row in a stored block. */
  lemma {:induction false} RunInv(H: Hasher, L: LeafHasher, p: Processor, ops: seq<Op>)
    requires Inv(p.tables) && FedInOrder(H, L, p, ops)
    ensures Inv(Run(H, L, p, ops).tables)
    decreases |ops|
  {
    hide Inv, Step, InOrder;
    if ops != [] {
      StepInv(H, L, p, ops[0]);
      RunInv(H, L, Step(H, L, p, ops[0]), ops[1..]);
    }
  }

  // ----- halting -----

  /** Nothing in ops can release a processor with tables t: no restart, and no committed reorg that deletes a block. */
  ghost predicate NoRelease(t: Tables, ops: seq<Op>) {
    forall k: nat {:trigger ops[k]} :: k < |ops| ==>
      !ops[k].Restart? && (ops[k].Reorg? && ops[k].commits ==> !Deletes(t, ops[k].from))
  }

  /** A halted processor takes nothing in, whatever it is given, until a reorg deletes a block. */
  lemma {:induction false} HaltedStays(H: Hasher, L: LeafHasher, p: Processor, ops: seq<Op>)
    requires p.halted && Inv(p.tables) && NoRelease(p.tables, ops)
    ensures Run(H, L, p, ops) == p
    decreases |ops|
  {
    hide Inv, Cut, Go, Deletes;
    if ops != [] {
      var op := ops[0];
      assert op == ops[0];
      if op.Reorg? && op.commits {
        CutNothing(p.tables, op.from);
      }
      HaltedStays(H, L, p, ops[1..]);
    }
  }

  /** It is released exactly by a restart or by a committed reorg that deletes a block. */
  lemma ReleasedIff(H: Hasher, L: LeafHasher, p: Processor, op: Op)
    requires p.halted
    ensures !Step(H, L, p, op).halted <==> op.Restart? || (op.Reorg? && op.commits && Deletes(p.tables, op.from))
  {}

  // ----- the tree inside the processor -----

  function Machine(p: Processor): A.Machine {
    A.Machine(p.tables.info, p.mem)
  }

  /** The leaf that an event hands to the tree, if its row was not refused before. */
  function Handed(H: Hasher, L: LeafHasher, w: Work, num: nat, first: nat, e: Event): seq<A.Add> {
    if e.update.None? then []
    else
      var u, index := e.update.value, Wrap32(first + w.added);
      var leaf := NewLeaf(H, L, num, u, index);
      if Clashes(w.tables.leaves, leaf) then [] else [A.Add(u.pos, index, leaf.hash)]
  }

  /** The leaves that the events hand to the tree, up to the event that fails. */
  function Tried(H: Hasher, L: LeafHasher, w: Work, num: nat, first: nat, events: seq<Event>): seq<A.Add>
    decreases |events|
  {
    if events == [] then []
    else
      var r := DoEvent(H, L, w, num, first, events[0]);
      Handed(H, L, w, num, first, events[0]) + if !r.Done? then [] else Tried(H, L, r.w, num, first, events[1..])
  }

  lemma ChecksFrame(H: Hasher, w: Work, num: nat, e: Event)
    ensures var r := Checks(H, w, num, e);
            r.w.tables.info == w.tables.info && r.w.tables.leaves == w.tables.leaves && r.w.mem == w.mem
              && r.w.added == w.added
  {
    hide V.Process;
  }

  /** One event: what the tree and its memory see of it. */
  lemma EventOnTree(H: Hasher, L: LeafHasher, w: Work, num: nat, first: nat, e: Event, rest: seq<A.Add>)
    ensures var r := DoEvent(H, L, w, num, first, e);
            var adds := Handed(H, L, w, num, first, e);
            && (r.Done? ==>
                  A.AddAll(H, w.tables.info, w.mem, num, adds + rest)
                  == var more := A.AddAll(H, r.w.tables.info, r.w.mem, num, rest);
                     more.(added := more.added + (r.w.added - w.added)))
            && (r.Done? ==> r.w.added >= w.added)
            && (!r.Done? ==>
                  var a := A.AddAll(H, w.tables.info, w.mem, num, adds);
                  a.mem == r.w.mem && r.w.added == w.added + a.added)
  {
    hide A.AddAll, Checks, AddInfo;
    var adds := Handed(H, L, w, num, first, e);
    var a := if e.update.Some? then AddInfo(H, L, w, num, first, e.update.value) else Done(w);
    if a.Done? {
      ChecksFrame(H, a.w, num, e);
      A.NoLeaves(H, a.w.tables.info, a.w.mem, num);
    }
    if e.update.Some? {
      AddInfoOnTree(H, L, w, num, first, e, rest);
      AddInfoOnTree(H, L, w, num, first, e, []);
      assert adds + [] == adds;
    } else {
      A.NoLeaves(H, w.tables.info, w.mem, num);
      assert adds + rest == rest;
    }
  }

  lemma AddInfoOnTree(H: Hasher, L: LeafHasher, w: Work, num: nat, first: nat, e: Event, rest: seq<A.Add>)
    requires e.update.Some?
    ensures var r := AddInfo(H, L, w, num, first, e.update.value);
            var adds := Handed(H, L, w, num, first, e);
            && (r.Done? ==>
                  && A.AddAll(H, w.tables.info, w.mem, num, adds + rest)
                     == (var more := A.AddAll(H, r.w.tables.info, r.w.mem, num, rest); more.(added := more.added + 1))
                  && r.w.added == w.added + 1)
            && (!r.Done? ==>
                  var a := A.AddAll(H, w.tables.info, w.mem, num, adds);
                  a.mem == r.w.mem && a.added == 0 && r.w.added == w.added)
  {
    hide A.AddLeaf, A.AddAll, Clashes, B.Insert, NewLeaf, Wrap32;
    var adds := Handed(H, L, w, num, first, e);
    A.NoLeaves(H, w.tables.info, w.mem, num);
    if adds != [] {
      assert adds == [adds[0]] && [adds[0]] + [] == adds;
      A.AddAllOne(H, w.tables.info, w.mem, num, adds[0], rest);
      A.AddAllOne(H, w.tables.info, w.mem, num, adds[0], []);
    }
  }

  /** All the events: the tree and its memory go through AddAll on the leaves handed over. */
  lemma {:induction false} GoOnTree(H: Hasher, L: LeafHasher, w: Work, num: nat, first: nat, events: seq<Event>)
    ensures var r := Go(H, L, w, num, first, events);
            var a := A.AddAll(H, w.tables.info, w.mem, num, Tried(H, L, w, num, first, events));
            && a.mem == r.w.mem && r.w.added == w.added + a.added
            && (r.Done? ==> a.ok && a.db == r.w.tables.info)
    decreases |events|
  {
    hide A.AddAll, DoEvent, Handed;
    if events == [] {
      A.NoLeaves(H, w.tables.info, w.mem, num);
    } else {
      var r := DoEvent(H, L, w, num, first, events[0]);
      var adds := Handed(H, L, w, num, first, events[0]);
      assert adds + [] == adds;
      if r.Done? {
        GoOnTree(H, L, r.w, num, first, events[1..]);
        EventOnTree(H, L, w, num, first, events[0], Tried(H, L, r.w, num, first, events[1..]));
      } else {
        EventOnTree(H, L, w, num, first, events[0], []);
      }
    }
  }

  /** The step of the append-only tree that a step of the processor is; none if the processor refuses at once. */
  function TreeOps(H: Hasher, L: LeafHasher, p: Processor, op: Op): seq<A.Op> {
    match op
    case Feed(b, commits) =>
      if p.halted || b.num in p.tables.blocks then []
      else [A.Block(b.num, Tried(H, L, Begin(p, b.num), b.num, FirstIndex(p.tables.leaves), b.events),
                    if !Events(H, L, p, b).Done? then A.LaterStepFails else if commits then A.Commits
                      else A.CommitFails)]
    case Reorg(from, commits) => if commits then [A.Reorg(from)] else []
    case Restart => [A.Restart]
  }

  /** Every step of the processor is, for the tree inside it, a step of the append-only tree. */
  lemma StepOnTree(H: Hasher, L: LeafHasher, p: Processor, op: Op)
    requires |p.mem.cache| == HEIGHT
    ensures var ops := TreeOps(H, L, p, op);
            Machine(Step(H, L, p, op)) == if ops == [] then Machine(p) else A.Step(H, Machine(p), ops[0])
  {
    hide A.AddAll, Go, Tried;
    match op
    case Feed(b, commits) =>
      GoOnTree(H, L, Begin(p, b.num), b.num, FirstIndex(p.tables.leaves), b.events);
    case Reorg(_, _) =>
    case Restart =>
  }

  function AllTreeOps(H: Hasher, L: LeafHasher, p: Processor, ops: seq<Op>): seq<A.Op>
    decreases |ops|
  {
    if ops == [] then [] else TreeOps(H, L, p, ops[0]) + AllTreeOps(H, L, Step(H, L, p, ops[0]), ops[1..])
  }

  /** The leaves as the tree knows them. */
  function Known(leaves: seq<Leaf>): (r: seq<A.Entry>)
    ensures |r| == |leaves|
    ensures forall k: nat {:trigger r[k]} :: k < |r| ==> r[k] == A.Entry(leaves[k].block, leaves[k].pos, leaves[k].hash)
  {
    seq(|leaves|, k requires 0 <= k < |leaves| => A.Entry(leaves[k].block, leaves[k].pos, leaves[k].hash))
  }

  lemma {:induction false} KnownKept(leaves: seq<Leaf>, from: nat)
    ensures Known(KeptLeaves(leaves, from)) == A.Kept(Known(leaves), from)
    decreases |leaves|
  {
    if leaves == [] {
      assert Known(leaves) == [];
    } else {
      var n := |leaves| - 1;
      assert Known(leaves)[..n] == Known(leaves[..n]);
      KnownKept(leaves[..n], from);
    }
  }

  /** The rows that the events store are those of the leaves they hand to the tree. */
  lemma {:induction false} GoKnown(H: Hasher, L: LeafHasher, w: Work, num: nat, first: nat, events: seq<Event>, lo: int)
    requires WorkInv(w, num, first, lo) && Rising(events, lo) && |w.tables.leaves| + Updates(events) < 0x1_0000_0000
    ensures var r := Go(H, L, w, num, first, events);
            r.Done? ==> Known(r.w.tables.leaves)
                        == Known(w.tables.leaves) + A.Entries(num, Tried(H, L, w, num, first, events))
    decreases |events|
  {
    hide DoEvent, Inv, Before, Handed;
    if events == [] {
      assert Known(w.tables.leaves) + A.Entries(num, []) == Known(w.tables.leaves);
    } else {
      var e := events[0];
      DoEventInv(H, L, w, num, first, e, lo);
      var r := DoEvent(H, L, w, num, first, e);
      if r.Done? {
        EventKnown(H, L, w, num, first, e, lo);
        GoKnown(H, L, r.w, num, first, events[1..], NextLo(e, lo));
        var a, rest := Handed(H, L, w, num, first, e), Tried(H, L, r.w, num, first, events[1..]);
        assert A.Entries(num, a + rest) == A.Entries(num, a) + A.Entries(num, rest);
        assert Known(w.tables.leaves) + A.Entries(num, a) + A.Entries(num, rest)
            == Known(w.tables.leaves) + (A.Entries(num, a) + A.Entries(num, rest));
      }
    }
  }

  lemma EventKnown(H: Hasher, L: LeafHasher, w: Work, num: nat, first: nat, e: Event, lo: int)
    requires WorkInv(w, num, first, lo) && DoEvent(H, L, w, num, first, e).Done?
    requires e.update.Some? ==> lo < e.update.value.pos && |w.tables.leaves| + 1 < 0x1_0000_0000
    ensures Known(DoEvent(H, L, w, num, first, e).w.tables.leaves)
            == Known(w.tables.leaves) + A.Entries(num, Handed(H, L, w, num, first, e))
  {
    hide A.AddLeaf, Checks, Clashes, B.Insert, Inv, Before;
    var a := if e.update.Some? then AddInfo(H, L, w, num, first, e.update.value) else Done(w);
    ChecksFrame(H, a.w, num, e);
    if e.update.Some? {
      AddInfoExtends(H, L, w, num, first, e.update.value, lo);
    }
  }

  /** The tree's surviving leaves are the rows of l1info_leaf, step by step. */
  lemma StepKnown(H: Hasher, L: LeafHasher, p: Processor, op: Op)
    requires Inv(p.tables) && (op.Feed? ==> InOrder(p.tables, op.b))
    ensures var ops := TreeOps(H, L, p, op);
            Known(Step(H, L, p, op).tables.leaves)
            == if ops == [] then Known(p.tables.leaves) else A.Survivors(H, Machine(p), Known(p.tables.leaves), ops[0])
  {
    hide A.AddAll, Go, Tried, Inv, Known, KeptLeaves, A.Kept;
    match op
    case Feed(b, commits) =>
      if !p.halted && b.num !in p.tables.blocks {
        BeginInv(p, b);
        GoKnown(H, L, Begin(p, b.num), b.num, FirstIndex(p.tables.leaves), b.events, -1);
        GoOnTree(H, L, Begin(p, b.num), b.num, FirstIndex(p.tables.leaves), b.events);
      }
    case Reorg(from, _) => KnownKept(p.tables.leaves, from);
    case Restart =>
  }

  lemma {:induction false} RunOnTree(H: Hasher, L: LeafHasher, p: Processor, ops: seq<Op>)
    requires Inv(p.tables) && FedInOrder(H, L, p, ops) && |p.mem.cache| == HEIGHT
    ensures Machine(Run(H, L, p, ops)) == A.Run(H, Machine(p), AllTreeOps(H, L, p, ops))
    ensures Known(Run(H, L, p, ops).tables.leaves)
            == A.RunSurvivors(H, Machine(p), Known(p.tables.leaves), AllTreeOps(H, L, p, ops))
    decreases |ops|
  {
    hide Inv, Step, InOrder, TreeOps, A.Step, A.Survivors, Known;
    if ops != [] {
      var q, t := Step(H, L, p, ops[0]), TreeOps(H, L, p, ops[0]);
      var rest := AllTreeOps(H, L, q, ops[1..]);
      StepOnTree(H, L, p, ops[0]);
      StepKnown(H, L, p, ops[0]);
      StepInv(H, L, p, ops[0]);
      OneTreeOp(H, L, p, ops[0]);
      RunOnTree(H, L, q, ops[1..]);
      if t == [] {
        assert t + rest == rest;
      } else {
        assert (t + rest)[0] == t[0] && (t + rest)[1..] == rest;
      }
    }
  }

  lemma OneTreeOp(H: Hasher, L: LeafHasher, p: Processor, op: Op)
    requires |p.mem.cache| == HEIGHT
    ensures |TreeOps(H, L, p, op)| <= 1 && |Step(H, L, p, op).mem.cache| == HEIGHT
  {
    hide A.AddAll, Go, Tried;
    match op
    case Feed(b, _) =>
      GoOnTree(H, L, Begin(p, b.num), b.num, FirstIndex(p.tables.leaves), b.events);
    case Reorg(_, _) =>
    case Restart =>
  }

  /** The leaves that a block in order hands to the tree are in order for the tree. */
  lemma {:induction false} GoInOrder(
    H: Hasher, L: LeafHasher, w: Work, num: nat, first: nat, events: seq<Event>, lo: int)
    requires WorkInv(w, num, first, lo) && Rising(events, lo) && |w.tables.leaves| + Updates(events) < 0x1_0000_0000
    ensures A.InOrder(Known(w.tables.leaves), num, Tried(H, L, w, num, first, events), HEIGHT)
    decreases |events|
  {
    hide DoEvent, Inv, Pow2;
    if events != [] {
      var e := events[0];
      var r, es := DoEvent(H, L, w, num, first, e), Known(w.tables.leaves);
      var a, rest := Handed(H, L, w, num, first, e), Tried(H, L, w, num, first, events);
      DoEventInv(H, L, w, num, first, e, lo);
      A.FullTree();
      if r.Done? {
        GoInOrder(H, L, r.w, num, first, events[1..], NextLo(e, lo));
        EventKnown(H, L, w, num, first, e, lo);
      }
      var more := if r.Done? then Tried(H, L, r.w, num, first, events[1..]) else [];
      if a == [] {
        assert rest == more && A.Entries(num, a) == [] && es + [] == es;
      } else {
        assert rest[0] == a[0] && rest[1..] == more;
        assert A.Entries(num, a) == [A.Entry(num, a[0].pos, a[0].hash)];
      }
    }
  }

  /** So every step is well fed for the tree, and a rebuild finds the last root for certain. */
  lemma StepWellFed(H: Hasher, L: LeafHasher, p: Processor, op: Op)
    requires Inv(p.tables) && (op.Feed? ==> InOrder(p.tables, op.b))
    ensures var ops := TreeOps(H, L, p, op);
            ops != [] ==> A.WellFed(HEIGHT, Machine(p), Known(p.tables.leaves), ops[0])
  {
    hide Go, Tried, A.InOrder, Known, Certain, InBlockOrder;
    RootsOrdered(p.tables);
    OrderedIsCertain(p.tables.info.roots);
    match op
    case Feed(b, commits) =>
      if !p.halted && b.num !in p.tables.blocks {
        BeginInv(p, b);
        GoInOrder(H, L, Begin(p, b.num), b.num, FirstIndex(p.tables.leaves), b.events, -1);
      }
    case Reorg(_, _) =>
    case Restart =>
  }

  /** What is left to ask of the tree inside: no hash collision, and no rollback beyond its bound. */
  ghost predicate TreeHarmless(H: Hasher, L: LeafHasher, p: Processor, ops: seq<Op>) {
    A.HarmlessRun(H, HEIGHT, Machine(p), Known(p.tables.leaves), AllTreeOps(H, L, p, ops))
  }

  lemma {:induction false} RunAdmissible(H: Hasher, L: LeafHasher, p: Processor, ops: seq<Op>)
    requires Inv(p.tables) && FedInOrder(H, L, p, ops) && |p.mem.cache| == HEIGHT && TreeHarmless(H, L, p, ops)
    ensures A.AdmissibleRun(H, HEIGHT, Machine(p), Known(p.tables.leaves), AllTreeOps(H, L, p, ops))
    decreases |ops|
  {
    hide Inv, Step, InOrder, TreeOps, A.Step, A.Survivors, Known, A.Harmless, A.WellFed;
    if ops != [] {
      var q, t := Step(H, L, p, ops[0]), TreeOps(H, L, p, ops[0]);
      var rest := AllTreeOps(H, L, q, ops[1..]);
      StepOnTree(H, L, p, ops[0]);
      StepKnown(H, L, p, ops[0]);
      StepInv(H, L, p, ops[0]);
      OneTreeOp(H, L, p, ops[0]);
      StepWellFed(H, L, p, ops[0]);
      if t == [] {
        assert t + rest == rest;
      } else {
        assert (t + rest)[0] == t[0] && (t + rest)[1..] == rest;
      }
      RunAdmissible(H, L, q, ops[1..]);
    }
  }

  /**
   Over every run of blocks in order, failures, reorgs and restarts, as long as no rollback goes beyond the safe
   bound of the tree and no hashes collide, the root stored with leaf i is the root of the rows 0..i.
   */
  lemma RootsAreRight(H: Hasher, L: LeafHasher, ops: seq<Op>)
    requires FedInOrder(H, L, Fresh(), ops) && CollisionFree(H, ZeroNodes(H, HEIGHT))
             && TreeHarmless(H, L, Fresh(), ops)
    ensures var t := Run(H, L, Fresh(), ops).tables;
            Inv(t) && t.info.roots == A.Rows(H, Known(t.leaves), HEIGHT)
  {
    hide Run, AllTreeOps, FedInOrder, A.Run, A.AdmissibleRun, Holds, TreeHarmless;
    FreshInv();
    RunInv(H, L, Fresh(), ops);
    RunOnTree(H, L, Fresh(), ops);
    RunAdmissible(H, L, Fresh(), ops);
    assert Known([]) == [];
    A.FreshGood(H, HEIGHT);
    A.RunGood(H, HEIGHT, A.Fresh(HEIGHT), [], AllTreeOps(H, L, Fresh(), ops));
  }

  lemma FreshInv()
    ensures Inv(Fresh().tables)
  {}

  /** A sanity check that passed compared the contract's root with the root of the rows stored up to that point. */
  lemma MatchedIsRight(H: Hasher, t: Tables, n: nat, v2: UpdateV2)
    requires Matched(t, n, v2) && t.info.roots == A.Rows(H, Known(t.leaves), HEIGHT)
    ensures n <= |t.leaves| && v2.leafCount == n
    ensures v2.currentRoot == Root(H, Listed(A.Hashes(Known(t.leaves[..n]))), HEIGHT)
  {
    hide Root;
    assert Known(t.leaves)[..n] == Known(t.leaves[..n]);
  }

  lemma {:induction false} RunSnoc(H: Hasher, L: LeafHasher, p: Processor, ops: seq<Op>, op: Op)
    ensures Run(H, L, p, ops + [op]) == Step(H, L, Run(H, L, p, ops), op)
    ensures FedInOrder(H, L, p, ops + [op]) ==>
              FedInOrder(H, L, p, ops) && (op.Feed? ==> InOrder(Run(H, L, p, ops).tables, op.b))
    decreases |ops|
  {
    hide Step, InOrder;
    var all := ops + [op];
    if ops == [] {
      assert all[1..] == [];
    } else {
      assert all[0] == ops[0] && all[1..] == ops[1..] + [op];
      RunSnoc(H, L, Step(H, L, p, ops[0]), ops[1..], op);
    }
  }

  /**
   Whenever such a run ends with an accepted block, each UpdateL1InfoTreeV2 of that block carried the number of
   leaves stored up to it and the specification root of exactly those leaves.
   */
  lemma AcceptedChecksAreRight(H: Hasher, L: LeafHasher, ops: seq<Op>, b: Block, k: nat)
    requires FedInOrder(H, L, Fresh(), ops + [Feed(b, true)]) && CollisionFree(H, ZeroNodes(H, HEIGHT))
    requires TreeHarmless(H, L, Fresh(), ops + [Feed(b, true)])
    requires Accepts(H, L, Run(H, L, Fresh(), ops), b, true) && k < |b.events| && b.events[k].updateV2.Some?
    ensures var leaves := Run(H, L, Fresh(), ops + [Feed(b, true)]).tables.leaves;
            var n := |Run(H, L, Fresh(), ops).tables.leaves| + UpdatesThrough(b.events, k);
            && n <= |leaves| && b.events[k].updateV2.value.leafCount == n
            && b.events[k].updateV2.value.currentRoot == Root(H, Listed(A.Hashes(Known(leaves[..n]))), HEIGHT)
  {
    hide Run, TreeHarmless, FedInOrder, Root, Processed, InOrder, Inv, Accepts, Matched;
    var p := Run(H, L, Fresh(), ops);
    RunSnoc(H, L, Fresh(), ops, Feed(b, true));
    FreshInv();
    RunInv(H, L, Fresh(), ops);
    AcceptedMatched(H, L, p, b, k);
    RootsAreRight(H, L, ops + [Feed(b, true)]);
    MatchedIsRight(H, Processed(H, L, p, b, true).tables, |p.tables.leaves| + UpdatesThrough(b.events, k),
      b.events[k].updateV2.value);
  }

  // ----- the rollup exit tree inside the processor -----

  /** The verified batches of a block. */
  function Verifies(num: nat, events: seq<Event>): seq<V.Event>
    decreases |events|
  {
    if events == [] then []
    else (if events[0].verify.Some? then [events[0].verify.value.(block := num)] else []) + Verifies(num, events[1..])
  }

  lemma EventOnExits(H: Hasher, L: LeafHasher, w: Work, num: nat, first: nat, e: Event)
    requires DoEvent(H, L, w, num, first, e).Done?
    ensures var r := DoEvent(H, L, w, num, first, e).w.tables.exits;
            if e.verify.Some? then V.Process(H, w.tables.exits, e.verify.value.(block := num), HEIGHT) == Some(r)
            else r == w.tables.exits
  {
    hide V.Process, A.AddLeaf, Clashes, B.Insert;
  }

  lemma {:induction false} GoOnExits(H: Hasher, L: LeafHasher, w: Work, num: nat, first: nat, events: seq<Event>)
    requires Go(H, L, w, num, first, events).Done?
    ensures V.ProcessAll(H, w.tables.exits, Verifies(num, events), HEIGHT)
            == Some(Go(H, L, w, num, first, events).w.tables.exits)
    decreases |events|
  {
    hide DoEvent, V.Process;
    if events != [] {
      var e, rest := events[0], Verifies(num, events[1..]);
      EventOnExits(H, L, w, num, first, e);
      GoOnExits(H, L, DoEvent(H, L, w, num, first, e).w, num, first, events[1..]);
      if e.verify.Some? {
        var x := e.verify.value.(block := num);
        assert ([x] + rest)[0] == x && ([x] + rest)[1..] == rest;
      } else {
        assert [] + rest == rest;
      }
    }
  }

  /** What a step of the processor is for the rollup exit tree: an accepted block, a reorg, or nothing. */
  function ExitOps(H: Hasher, L: LeafHasher, p: Processor, op: Op): seq<V.Op> {
    match op
    case Feed(b, commits) => if Accepts(H, L, p, b, commits) then [V.Block(Verifies(b.num, b.events))] else []
    case Reorg(from, commits) => if commits then [V.Reorg(from)] else []
    case Restart => []
  }

  lemma StepOnExits(H: Hasher, L: LeafHasher, p: Processor, op: Op)
    ensures |ExitOps(H, L, p, op)| <= 1
    ensures var ops := ExitOps(H, L, p, op);
            Step(H, L, p, op).tables.exits == if ops == [] then p.tables.exits
              else V.Step(H, p.tables.exits, ops[0], HEIGHT)
  {
    hide Go, V.ProcessAll, Verifies, V.DeleteRows, DeleteFrom;
    match op
    case Feed(b, commits) =>
      if Accepts(H, L, p, b, commits) {
        GoOnExits(H, L, Begin(p, b.num), b.num, FirstIndex(p.tables.leaves), b.events);
      }
    case Reorg(_, _) =>
    case Restart =>
  }

  function AllExitOps(H: Hasher, L: LeafHasher, p: Processor, ops: seq<Op>): seq<V.Op>
    decreases |ops|
  {
    if ops == [] then [] else ExitOps(H, L, p, ops[0]) + AllExitOps(H, L, Step(H, L, p, ops[0]), ops[1..])
  }

  lemma {:induction false} RunOnExits(H: Hasher, L: LeafHasher, p: Processor, ops: seq<Op>)
    ensures Run(H, L, p, ops).tables.exits == V.Run(H, p.tables.exits, AllExitOps(H, L, p, ops), HEIGHT)
    decreases |ops|
  {
    hide Step, ExitOps, V.Step;
    if ops != [] {
      var q, t := Step(H, L, p, ops[0]), ExitOps(H, L, p, ops[0]);
      var rest := AllExitOps(H, L, q, ops[1..]);
      StepOnExits(H, L, p, ops[0]);
      RunOnExits(H, L, q, ops[1..]);
      if t == [] {
        assert t + rest == rest;
      } else {
        assert (t + rest)[0] == t[0] && (t + rest)[1..] == rest;
      }
    }
  }

  /** Within each block the verified batches have rising positions. */
  predicate VerifiesRise(ops: seq<Op>) {
    forall k: nat {:trigger ops[k]} :: k < |ops| && ops[k].Feed? ==>
      V.RisingAt(Verifies(ops[k].b.num, ops[k].b.events), ops[k].b.num, -1)
  }

  lemma StepPast(H: Hasher, L: LeafHasher, p: Processor, t: V.Past, op: Op)
    requires Inv(p.tables) && (op.Feed? ==> InOrder(p.tables, op.b)) && V.PastWithin(t, p.tables.blocks)
    requires op.Feed? ==> V.RisingAt(Verifies(op.b.num, op.b.events), op.b.num, -1)
    ensures var q, ops := Step(H, L, p, op), ExitOps(H, L, p, op);
            && (ops == [] ==> V.PastWithin(t, q.tables.blocks))
            && (ops != [] ==> V.PastWithin(V.Survivors(H, p.tables.exits, t, ops[0], HEIGHT), q.tables.blocks))
  {
    hide Inv, Events, Verifies, V.ProcessAll, V.RisingAt, V.PastWithin, V.AfterAll, Cut, V.U.Kept, V.KeptEvents;
    match op
    case Feed(b, commits) =>
      AcceptedInv(H, L, p, b, commits);
      if Accepts(H, L, p, b, commits) {
        WithinMore(t, p.tables.blocks, b.num);
        V.AfterAllWithin(H, p.tables.exits, t, Verifies(b.num, b.events), b.num, -1, HEIGHT, p.tables.blocks + {b.num});
      }
    case Reorg(from, commits) =>
      V.KeptWithin(t, from, p.tables.blocks);
      CutBlocks(p.tables, from);
    case Restart =>
  }

  lemma WithinMore(t: V.Past, blocks: set<nat>, num: nat)
    requires V.PastWithin(t, blocks)
    ensures V.PastWithin(t, blocks + {num})
  {}

  lemma CutBlocks(t: Tables, from: nat)
    ensures Cut(t, from).blocks == set b | b in t.blocks && b < from
  {}

  /** What is left to ask of the exit tree inside: no hash collision among its nodes. */
  ghost predicate ExitsClean(H: Hasher, L: LeafHasher, p: Processor, ops: seq<Op>) {
    V.CleanRun(H, p.tables.exits, AllExitOps(H, L, p, ops), HEIGHT)
  }

  lemma {:induction false} RunExitsInOrder(H: Hasher, L: LeafHasher, p: Processor, t: V.Past, ops: seq<Op>)
    requires Inv(p.tables) && FedInOrder(H, L, p, ops) && VerifiesRise(ops) && ExitsClean(H, L, p, ops)
    requires V.PastWithin(t, p.tables.blocks)
    ensures V.InOrderRun(H, p.tables.exits, t, AllExitOps(H, L, p, ops), HEIGHT)
    decreases |ops|
  {
    hide Inv, Step, InOrder, ExitOps, V.Step, V.Survivors, V.PastWithin, V.RisingAt, V.CleanAll, V.InOrder, Verifies;
    if ops != [] {
      var op := ops[0];
      var q, x := Step(H, L, p, op), ExitOps(H, L, p, op);
      var rest := AllExitOps(H, L, q, ops[1..]);
      StepOnExits(H, L, p, op);
      StepInv(H, L, p, op);
      StepPast(H, L, p, t, op);
      if x == [] {
        assert x + rest == rest;
        RunExitsInOrder(H, L, q, t, ops[1..]);
      } else {
        assert (x + rest)[0] == x[0] && (x + rest)[1..] == rest;
        BlockExitsInOrder(H, L, p, t, op);
        RunExitsInOrder(H, L, q, V.Survivors(H, p.tables.exits, t, x[0], HEIGHT), ops[1..]);
      }
    }
  }

  /** A block in order brings its verified batches in order. */
  lemma BlockExitsInOrder(H: Hasher, L: LeafHasher, p: Processor, t: V.Past, op: Op)
    requires (op.Feed? ==> InOrder(p.tables, op.b)) && V.PastWithin(t, p.tables.blocks)
    requires op.Feed? ==> V.RisingAt(Verifies(op.b.num, op.b.events), op.b.num, -1)
    requires ExitOps(H, L, p, op) != []
    requires var x := ExitOps(H, L, p, op)[0]; x.Block? ==> V.CleanAll(H, p.tables.exits, x.events, HEIGHT)
    ensures var x := ExitOps(H, L, p, op)[0]; x.Block? ==> V.InOrder(H, p.tables.exits, t, x.events, HEIGHT)
  {
    hide Events, Verifies, V.PastWithin, V.RisingAt, V.CleanAll, V.InOrder, V.Behind, Pow2;
    if op.Feed? {
      V.PastIsBehind(t, p.tables.blocks, op.b.num);
      A.FullTree();
      V.RisingIsInOrder(H, p.tables.exits, t, Verifies(op.b.num, op.b.events), op.b.num, -1, HEIGHT);
    }
  }

  /**
   Over every run of the processor the last root of the rollup exit tree is the root of the last non-zero exit
   roots among the verified batches of the surviving blocks, and each rollup's can be read back.
   */
  lemma ExitRootsAreRight(H: Hasher, L: LeafHasher, ops: seq<Op>, rollupID: V.RollupID)
    requires CollisionFree(H, ZeroNodes(H, HEIGHT)) && ExitsClean(H, L, Fresh(), ops)
    requires FedInOrder(H, L, Fresh(), ops) && VerifiesRise(ops) && rollupID >= 1
    ensures var db := Run(H, L, Fresh(), ops).tables.exits.db;
            var x := V.RunSurvivors(H, V.Empty(), V.Past([], []), AllExitOps(H, L, Fresh(), ops), HEIGHT);
            var m, i, root := V.Expected(x.es), rollupID - 1, V.U.LastHash(H, db, HEIGHT);
            && root == Root(H, m, HEIGHT) && LeafAt(m, i) == V.LastExitRoot(x.es, rollupID)
            && V.U.ValueOf(Lookup(db.rht, root, i, HEIGHT)) == V.LastExitRoot(x.es, rollupID)
  {
    hide Run, AllExitOps, V.Run, V.InOrderRun, V.RunSurvivors, V.Expected, Lookup, Root, FedInOrder, Pow2,
      V.LastExitRoot;
    RunOnExits(H, L, Fresh(), ops);
    A.FullTree();
    FreshInv();
    RunExitsInOrder(H, L, Fresh(), V.Past([], []), ops);
    V.RunPromise(H, HEIGHT, AllExitOps(H, L, Fresh(), ops), rollupID);
  }
}
