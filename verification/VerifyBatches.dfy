/**
 The rollup exit tree as verified batches drive it: one leaf per rollup, holding the last exit root
 that was not zero.
 */
module VerifyBatches {
  import opened Merkle
  import opened NodeTable
  import U = UpdatableTree
  import opened Wrappers
  import B = BlockRows

  /** An unsigned number of 32 bits. */
  type RollupID = n: nat | n < 0x1_0000_0000

  datatype Event = Event(block: nat, pos: nat, rollupID: RollupID, exitRoot: Hash)

  /** A row of verify_batches. */
  datatype Verified = Verified(event: Event, rollupExitRoot: Hash)

  datatype State = State(db: Db, verified: seq<Verified>)

  /** `RollupID - 1` on 32 bits. */
  function Slot(rollupID: RollupID): nat {
    (rollupID + 0xFFFF_FFFF) % 0x1_0000_0000
  }

  function AsWrite(e: Event): U.Write {
    U.Write(e.block, e.pos, Slot(e.rollupID), e.exitRoot)
  }

  /** isNewValueForRollupExitTree, given what the query for the last root answers. */
  predicate IsNewUnder(rht: Rht, last: Option<RootRow>, e: Event, height: nat) {
    last.None? ||
    var leaf := Lookup(rht, last.value.hash, Slot(e.rollupID), height);
    leaf.None? || leaf.value != e.exitRoot
  }

  predicate IsNewValue(H: Hasher, db: Db, e: Event, height: nat) {
    IsNewUnder(db.rht, Newest(db.roots), e, height)
  }

  predicate Skipped(H: Hasher, db: Db, e: Event, height: nat) {
    e.exitRoot == 0 || !IsNewValue(H, db, e, height)
  }

  predicate HasKey(rows: seq<Verified>, block: nat, pos: nat) {
    exists k: nat :: k < |rows| && rows[k].event.block == block && rows[k].event.pos == pos
  }

  /**
   processVerifyBatches inside a transaction, given what the query for the last root answers before the look-up and
   before the write; None is an error, which rolls the block back.
   */
  function ProcessUnder(
    H: Hasher, s: State, asked: Option<RootRow>, used: Option<RootRow>, e: Event, height: nat): Option<State>
  {
    if e.exitRoot == 0 || !IsNewUnder(s.db.rht, asked, e, height) then Some(s)
    else
      var root := U.RootHash(H, used, height);
      var up := U.UpsertOn(H, s.db, root, AsWrite(e), height);
      if up.None? || HasKey(s.verified, e.block, e.pos) then None
      else Some(State(up.value, s.verified + [Verified(e, U.RowOn(H, s.db.rht, root, AsWrite(e), height).hash)]))
  }

  /** The same when both answers are the row written last. */
  function Process(H: Hasher, s: State, e: Event, height: nat): Option<State> {
    ProcessUnder(H, s, Newest(s.db.roots), Newest(s.db.roots), e, height)
  }

  /** With the last root certain there is no other answer. */
  lemma AnswersForced(H: Hasher, s: State, asked: Option<RootRow>, used: Option<RootRow>, e: Event, height: nat)
    requires Certain(s.db.roots) && Legal(s.db.roots, asked) && Legal(s.db.roots, used)
    ensures ProcessUnder(H, s, asked, used, e, height) == Process(H, s, e, height)
  {
    LastIsNewestIff(s.db.roots);
  }

  /** DELETE by block, on the roots and (by cascade) on the rows. */
  function DeleteRows(rows: seq<Verified>, from: nat): (r: seq<Verified>) {
    B.Keep(rows, RowBlock, from)
  }

  function RowBlock(row: Verified): nat {
    row.event.block
  }

  // ----- the promise -----

  /** The last non-zero exit root of every rollup. */
  function Expected(es: seq<Event>): Leaves {
    if es == [] then map[]
    else
      var m, e := Expected(es[..|es| - 1]), es[|es| - 1];
      if e.exitRoot == 0 then m else m[Slot(e.rollupID) := e.exitRoot]
  }

  /** The last exit root of a rollup that is not zero, found by walking the events; 0 if there is none. */
  function LastExitRoot(es: seq<Event>, rollupID: nat): Hash {
    if es == [] then 0
    else
      var e := es[|es| - 1];
      if e.rollupID == rollupID && e.exitRoot != 0 then e.exitRoot else LastExitRoot(es[..|es| - 1], rollupID)
  }

  /** The leaf of a rollup is the one below its id. */
  lemma {:induction false} LeafOfRollup(es: seq<Event>, rollupID: RollupID)
    ensures rollupID >= 1 ==> LeafAt(Expected(es), rollupID - 1) == LastExitRoot(es, rollupID)
    ensures LeafAt(Expected(es), Slot(rollupID)) == LastExitRoot(es, rollupID)
    ensures Slot(rollupID) in Expected(es) <==> LastExitRoot(es, rollupID) != 0
    decreases |es|
  {
    if es != [] {
      LeafOfRollup(es[..|es| - 1], rollupID);
    }
  }

  function KeptEvents(es: seq<Event>, from: nat): (r: seq<Event>) {
    B.Keep(es, EventBlock, from)
  }

  function EventBlock(e: Event): nat {
    e.block
  }

  /** At every block the writes made so far and the events seen so far leave the same leaves behind. */
  ghost predicate Agree(ws: seq<U.Write>, es: seq<Event>) {
    forall b: nat {:trigger U.Kept(ws, b)} :: U.Applied(U.Kept(ws, b)) == Expected(KeptEvents(es, b))
  }

  /** The rows are the roots, one for one. */
  ghost predicate RowsMatch(s: State) {
    && |s.verified| == |s.db.roots|
    && (forall k: nat {:trigger s.verified[k]} :: k < |s.verified| ==>
          && s.verified[k].rollupExitRoot == s.db.roots[k].hash
          && s.verified[k].event.block == s.db.roots[k].block
          && s.verified[k].event.pos == s.db.roots[k].pos)
  }

  ghost predicate UpTo(ws: seq<U.Write>, es: seq<Event>, block: nat) {
    && (forall k: nat {:trigger ws[k]} :: k < |ws| ==> ws[k].block <= block)
    && (forall k: nat {:trigger es[k]} :: k < |es| ==> es[k].block <= block)
  }

  ghost predicate Good(H: Hasher, height: nat, s: State, ws: seq<U.Write>, es: seq<Event>) {
    U.Good(H, height, s.db, ws) && RowsMatch(s) && Agree(ws, es)
  }

  lemma NowAgree(ws: seq<U.Write>, es: seq<Event>, block: nat)
    requires Agree(ws, es) && UpTo(ws, es, block)
    ensures U.Applied(ws) == Expected(es)
  {
    hide B.Keep, U.Applied, Expected;
    assert U.Applied(U.Kept(ws, block + 1)) == Expected(KeptEvents(es, block + 1));
    B.KeepAll(ws, U.WriteBlock, block + 1);
    B.KeepAll(es, EventBlock, block + 1);
  }

  /** The writes after an event: none if it was skipped. */
  function After(H: Hasher, db: Db, ws: seq<U.Write>, e: Event, height: nat): seq<U.Write> {
    if Skipped(H, db, e, height) then ws else ws + [AsWrite(e)]
  }

  lemma AgreeAfter(ws: seq<U.Write>, ws': seq<U.Write>, es: seq<Event>, e: Event)
    requires Agree(ws, es) && UpTo(ws, es, e.block)
    requires ws' == ws || ws' == ws + [AsWrite(e)]
    requires U.Applied(ws') == Expected(es + [e])
    ensures Agree(ws', es + [e])
  {
    hide B.Keep, U.Applied, Expected;
    forall b: nat {:trigger U.Kept(ws', b)}
      ensures U.Applied(U.Kept(ws', b)) == Expected(KeptEvents(es + [e], b))
    {
      if e.block < b {
        B.KeepAll(ws', U.WriteBlock, b);
        B.KeepAll(es + [e], EventBlock, b);
      } else {
        B.KeepPush(ws, AsWrite(e), U.WriteBlock, b);
        B.KeepPush(es, e, EventBlock, b);
        assert U.Kept(ws', b) == U.Kept(ws, b);
      }
    }
  }

  /** A skipped event changes nothing that the promise speaks of. */
  lemma SkippedIsRight(H: Hasher, height: nat, db: Db, ws: seq<U.Write>, e: Event)
    requires U.Good(H, height, db, ws) && Slot(e.rollupID) < Pow2(height) && Skipped(H, db, e, height)
    ensures e.exitRoot == 0 || U.Applied(ws)[Slot(e.rollupID) := e.exitRoot] == U.Applied(ws)
  {
    hide Lookup, U.Good, Pow2;
    if e.exitRoot != 0 {
      U.LastRootReads(H, height, db, ws, Slot(e.rollupID));
    }
  }

  /** An event is skipped exactly when it carries no exit root, or the last one of its rollup. */
  lemma SkippedIff(H: Hasher, height: nat, s: State, ws: seq<U.Write>, es: seq<Event>, e: Event)
    requires Good(H, height, s, ws, es) && UpTo(ws, es, e.block) && Slot(e.rollupID) < Pow2(height)
    ensures Skipped(H, s.db, e, height) <==> e.exitRoot == 0 || e.exitRoot == LastExitRoot(es, e.rollupID)
  {
    hide Lookup, Expected, LastExitRoot, Agree, Pow2, Holds, U.Applied;
    NowAgree(ws, es, e.block);
    LeafOfRollup(es, e.rollupID);
    U.LastRootReads(H, height, s.db, ws, Slot(e.rollupID));
    NoRootsNoLeaves(H, height, s, ws);
  }

  lemma NoRootsNoLeaves(H: Hasher, height: nat, s: State, ws: seq<U.Write>)
    requires U.Good(H, height, s.db, ws)
    ensures s.db.roots == [] ==> U.Applied(ws) == map[]
  {}

  /**
   An event that is not skipped is refused exactly when its write would repeat an earlier root. Otherwise each
   rollup's leaf is again its last non-zero exit root, and the event is stored with the root that followed it.
   */
  lemma ProcessGood(H: Hasher, height: nat, s: State, ws: seq<U.Write>, es: seq<Event>, e: Event)
    requires Good(H, height, s, ws, es) && UpTo(ws, es, e.block) && U.Follows(ws, AsWrite(e))
    requires Slot(e.rollupID) < Pow2(height) && Clean(H, height, s.db.rht, U.NewNodes(H, s.db, AsWrite(e), height))
    ensures var r, root := Process(H, s, e, height), Root(H, Expected(es + [e]), height);
            var skipped := e.exitRoot == 0 || e.exitRoot == LastExitRoot(es, e.rollupID);
            && (r.None? <==> !skipped && HasRoot(s.db.roots, root))
            && (r.Some? ==>
                  && Good(H, height, r.value, After(H, s.db, ws, e, height), es + [e])
                  && r.value.verified == if skipped then s.verified else s.verified + [Verified(e, root)])
  {
    hide Node, Lookup, Stored, Clean, Agree, Holds, IsNewUnder, Siblings, Climb, PutAll, Path, HasKey, Pow2,
      LastExitRoot;
    var w := AsWrite(e);
    assert (es + [e])[..|es|] == es;
    NowAgree(ws, es, e.block);
    SkippedIff(H, height, s, ws, es, e);
    U.TrailPush(ws, w);
    if Skipped(H, s.db, e, height) {
      SkippedIsRight(H, height, s.db, ws, e);
      AgreeAfter(ws, ws, es, e);
    } else {
      U.UpsertIsSpec(H, height, s.db, ws, w);
      NoKey(H, height, s, ws, e);
      AgreeAfter(ws, ws + [w], es, e);
    }
  }

  lemma NoKey(H: Hasher, height: nat, s: State, ws: seq<U.Write>, e: Event)
    requires U.Good(H, height, s.db, ws) && RowsMatch(s) && U.Follows(ws, AsWrite(e))
    ensures !HasKey(s.verified, e.block, e.pos)
  {}

  /** The rows are cut with the roots. */
  lemma RowsCut(rows: seq<Verified>, roots: seq<RootRow>, from: nat)
    requires |rows| == |roots| && InBlockOrder(roots)
    requires forall k: nat {:trigger rows[k]} :: k < |rows| ==> rows[k].event.block == roots[k].block
    ensures |DeleteRows(rows, from)| == |DeleteFrom(roots, from)| <= |rows|
    ensures DeleteRows(rows, from) == rows[..|DeleteRows(rows, from)|]
  {
    hide B.Keep;
    forall k: nat {:trigger rows[k]} {:trigger roots[k]} | k < |rows|
      ensures RowBlock(rows[k]) == BlockOf(roots[k])
    {
      assert rows[k] == rows[k];
    }
    B.KeepTogether(rows, RowBlock, roots, BlockOf, from);
  }

  /** A reorg takes the tree back to the last non-zero exit roots of the blocks that are left. */
  lemma ReorgGood(H: Hasher, height: nat, s: State, ws: seq<U.Write>, es: seq<Event>, from: nat)
    requires Good(H, height, s, ws, es)
    ensures Good(H, height, State(Db(s.db.rht, DeleteFrom(s.db.roots, from)), DeleteRows(s.verified, from)),
                 U.Kept(ws, from), KeptEvents(es, from))
  {
    hide Node, Stored, Sound, Clean, B.Keep, U.Applied, Expected;
    U.StepGood(H, height, s.db, ws, U.Reorg(from));
    OrderedIsCertain(s.db.roots);
    RowsCut(s.verified, s.db.roots, from);
    DeleteCuts(s.db.roots, from);
    forall b: nat {:trigger U.Kept(U.Kept(ws, from), b)}
      ensures U.Applied(U.Kept(U.Kept(ws, from), b)) == Expected(KeptEvents(KeptEvents(es, from), b))
    {
      var m := if from < b then from else b;
      assert U.Applied(U.Kept(ws, m)) == Expected(KeptEvents(es, m));
      B.KeepTwice(ws, U.WriteBlock, from, b);
      B.KeepTwice(es, EventBlock, from, b);
    }
  }

  /**
   The promise itself: the last root is the root of the tree whose leaf below each rollup id is that rollup's last
   non-zero exit root, and each can be read back.
   */
  lemma GoodPromise(
    H: Hasher, height: nat, s: State, ws: seq<U.Write>, es: seq<Event>, block: nat, rollupID: RollupID)
    requires Good(H, height, s, ws, es) && UpTo(ws, es, block) && 1 <= rollupID <= Pow2(height)
    ensures var m, i, root := Expected(es), rollupID - 1, U.LastHash(H, s.db, height);
            && root == Root(H, m, height) && LeafAt(m, i) == LastExitRoot(es, rollupID)
            && U.ValueOf(Lookup(s.db.rht, root, i, height)) == LastExitRoot(es, rollupID)
  {
    hide Lookup, Expected, Root, Holds, U.LastHash, Pow2, LastExitRoot;
    NowAgree(ws, es, block);
    LeafOfRollup(es, rollupID);
    U.LastRootIs(H, height, s.db, ws);
    U.LastRootReads(H, height, s.db, ws, rollupID - 1);
  }

  /** An exit root that goes from a to b and back to a is refused the second time: the block cannot be processed. */
  lemma ReturnToFormerExitRootFails(
    H: Hasher, height: nat, s: State, ws: seq<U.Write>, es: seq<Event>, first: Event, second: Event)
    requires Good(H, height, s, ws, es) && |ws| >= 2
    requires Slot(second.rollupID) < Pow2(height) && second.exitRoot != 0
    requires UpTo(ws, es, second.block) && U.Follows(ws, AsWrite(second))
    requires Clean(H, height, s.db.rht, U.NewNodes(H, s.db, AsWrite(second), height))
    requires ws[|ws| - 1] == AsWrite(first) && Slot(first.rollupID) == Slot(second.rollupID)
    requires first.exitRoot != second.exitRoot
    requires LeafAt(U.Applied(ws[..|ws| - 1]), Slot(second.rollupID)) == second.exitRoot
    ensures Process(H, s, second, height).None?
  {
    hide Node, Lookup, Stored, Sound, Clean;
    var k, w := |ws| - 2, AsWrite(second);
    U.TrailPush(ws, w);
    assert ws[..k + 1] == ws[..|ws| - 1];
    assert U.Applied(ws + [w]) == U.Applied(ws[..k + 1]);
    U.ReturnRefused(H, height, s.db, ws, w, k);
    NotSkipped(H, height, s.db, ws, second);
  }

  lemma NotSkipped(H: Hasher, height: nat, db: Db, ws: seq<U.Write>, e: Event)
    requires U.Good(H, height, db, ws) && ws != [] && Slot(e.rollupID) < Pow2(height)
    requires e.exitRoot != 0 && LeafAt(U.Applied(ws), Slot(e.rollupID)) != e.exitRoot
    ensures !Skipped(H, db, e, height)
  {
    hide Lookup, U.Good, Pow2;
    U.LastRootReads(H, height, db, ws, Slot(e.rollupID));
  }

  // ----- whole runs -----

  /** The events of one block, all or none. */
  function ProcessAll(H: Hasher, s: State, events: seq<Event>, height: nat): Option<State>
    decreases |events|
  {
    if events == [] then Some(s)
    else
      var r := Process(H, s, events[0], height);
      if r.None? then None else ProcessAll(H, r.value, events[1..], height)
  }

  datatype Op = Block(events: seq<Event>) | Reorg(from: nat)

  function Step(H: Hasher, s: State, op: Op, height: nat): State {
    match op
    case Block(events) => var r := ProcessAll(H, s, events, height); if r.None? then s else r.value
    case Reorg(from) => State(Db(s.db.rht, DeleteFrom(s.db.roots, from)), DeleteRows(s.verified, from))
  }

  /** The writes and the events that survive. */
  datatype Past = Past(ws: seq<U.Write>, es: seq<Event>)

  function AfterAll(H: Hasher, s: State, t: Past, events: seq<Event>, height: nat): Past
    decreases |events|
  {
    if events == [] then t
    else
      var r := Process(H, s, events[0], height);
      var next := Past(After(H, s.db, t.ws, events[0], height), t.es + [events[0]]);
      if r.None? then next else AfterAll(H, r.value, next, events[1..], height)
  }

  function Survivors(H: Hasher, s: State, t: Past, op: Op, height: nat): Past {
    match op
    case Block(events) => if ProcessAll(H, s, events, height).None? then t else AfterAll(H, s, t, events, height)
    case Reorg(from) => Past(U.Kept(t.ws, from), KeptEvents(t.es, from))
  }

  /** The events come in order, for rollups within the tree, and their nodes obey the hypothesis on the hash. */
  ghost predicate InOrder(H: Hasher, s: State, t: Past, events: seq<Event>, height: nat)
    decreases |events|
  {
    events == [] ||
    var e, r := events[0], Process(H, s, events[0], height);
    && UpTo(t.ws, t.es, e.block) && U.Follows(t.ws, AsWrite(e)) && Slot(e.rollupID) < Pow2(height)
    && Clean(H, height, s.db.rht, U.NewNodes(H, s.db, AsWrite(e), height))
    && (r.Some? ==> InOrder(H, r.value, Past(After(H, s.db, t.ws, e, height), t.es + [e]), events[1..], height))
  }

  lemma {:induction false} BlockGood(H: Hasher, height: nat, s: State, t: Past, events: seq<Event>)
    requires Good(H, height, s, t.ws, t.es) && InOrder(H, s, t, events, height)
    ensures var r, u := ProcessAll(H, s, events, height), AfterAll(H, s, t, events, height);
            r.Some? ==> Good(H, height, r.value, u.ws, u.es) && u.es == t.es + events
    decreases |events|
  {
    hide Good, Process, After, UpTo, Clean, Pow2;
    if events == [] {
      assert t.es + events == t.es;
    } else {
      var e := events[0];
      ProcessGood(H, height, s, t.ws, t.es, e);
      var r := Process(H, s, e, height);
      if r.Some? {
        BlockGood(H, height, r.value, Past(After(H, s.db, t.ws, e, height), t.es + [e]), events[1..]);
        assert t.es + [e] + events[1..] == t.es + events;
      }
    }
  }

  function Run(H: Hasher, s: State, ops: seq<Op>, height: nat): State
    decreases |ops|
  {
    if ops == [] then s else Run(H, Step(H, s, ops[0], height), ops[1..], height)
  }

  function RunSurvivors(H: Hasher, s: State, t: Past, ops: seq<Op>, height: nat): Past
    decreases |ops|
  {
    if ops == [] then t
    else RunSurvivors(H, Step(H, s, ops[0], height), Survivors(H, s, t, ops[0], height), ops[1..], height)
  }

  ghost predicate InOrderRun(H: Hasher, s: State, t: Past, ops: seq<Op>, height: nat)
    decreases |ops|
  {
    ops == [] ||
    (&& (ops[0].Block? ==> InOrder(H, s, t, ops[0].events, height))
     && InOrderRun(H, Step(H, s, ops[0], height), Survivors(H, s, t, ops[0], height), ops[1..], height))
  }

  lemma {:induction false} RunGood(H: Hasher, height: nat, s: State, t: Past, ops: seq<Op>)
    requires Good(H, height, s, t.ws, t.es) && InOrderRun(H, s, t, ops, height)
    ensures var u := RunSurvivors(H, s, t, ops, height); Good(H, height, Run(H, s, ops, height), u.ws, u.es)
    decreases |ops|
  {
    hide Good, ProcessAll, AfterAll, InOrder, DeleteFrom, DeleteRows, KeptEvents, U.Kept;
    if ops != [] {
      var op := ops[0];
      match op {
        case Block(events) => BlockGood(H, height, s, t, events);
        case Reorg(from) => ReorgGood(H, height, s, t.ws, t.es, from);
      }
      RunGood(H, height, Step(H, s, op, height), Survivors(H, s, t, op, height), ops[1..]);
    }
  }

  lemma {:induction false} Bound(ws: seq<U.Write>, es: seq<Event>) returns (b: nat)
    ensures UpTo(ws, es, b)
    decreases |ws| + |es|
  {
    if ws != [] {
      b := Bound(ws[..|ws| - 1], es);
      var x := ws[|ws| - 1].block;
      assert forall k: nat {:trigger ws[k]} :: k < |ws| - 1 ==> ws[k] == ws[..|ws| - 1][k];
      b := if x > b then x else b;
    } else if es != [] {
      b := Bound(ws, es[..|es| - 1]);
      var x := es[|es| - 1].block;
      assert forall k: nat {:trigger es[k]} :: k < |es| - 1 ==> es[k] == es[..|es| - 1][k];
      b := if x > b then x else b;
    } else {
      b := 0;
    }
  }

  /**
   After every run of blocks, refused blocks and reorgs from empty tables, the last root is the root of the last
   non-zero exit roots of the surviving events, and each of those can be read back.
   */
  lemma RunPromise(H: Hasher, height: nat, ops: seq<Op>, rollupID: RollupID)
    requires CollisionFree(H, ZeroNodes(H, height)) && 1 <= rollupID <= Pow2(height)
    requires InOrderRun(H, Empty(), Past([], []), ops, height)
    ensures var s, es := Run(H, Empty(), ops, height), RunSurvivors(H, Empty(), Past([], []), ops, height).es;
            var m, i, root := Expected(es), rollupID - 1, U.LastHash(H, s.db, height);
            && root == Root(H, m, height) && LeafAt(m, i) == LastExitRoot(es, rollupID)
            && U.ValueOf(Lookup(s.db.rht, root, i, height)) == LastExitRoot(es, rollupID)
  {
    hide Good, Run, RunSurvivors, InOrderRun, Expected, Lookup, Root, LastExitRoot;
    EmptyGood(H, height);
    RunGood(H, height, Empty(), Past([], []), ops);
    var u := RunSurvivors(H, Empty(), Past([], []), ops, height);
    var b := Bound(u.ws, u.es);
    GoodPromise(H, height, Run(H, Empty(), ops, height), u.ws, u.es, b, rollupID);
  }

  function Empty(): State {
    State(Db(map[], []), [])
  }

  lemma EmptyGood(H: Hasher, height: nat)
    requires CollisionFree(H, ZeroNodes(H, height))
    ensures Good(H, height, Empty(), [], [])
  {
    var none: Rht := map[];
    assert none.Values + Members([]) + ZeroNodes(H, height) == ZeroNodes(H, height);
  }

  // ----- there and back -----

  /** Three events that take the exit root of a rollup from a to b and back to a. */
  function ThereAndBack(rollupID: RollupID, a: Hash, b: Hash): seq<Event> {
    [Event(1, 0, rollupID, a), Event(2, 0, rollupID, b), Event(3, 0, rollupID, a)]
  }

  /** With a collision-free hash an event in order that sets a new value is taken if the root it leads to is new. */
  lemma FreshTaken(H: Hasher, height: nat, s: State, t: Past, e: Event)
    requires Injective(H) && Good(H, height, s, t.ws, t.es) && UpTo(t.ws, t.es, e.block)
    requires U.Follows(t.ws, AsWrite(e)) && Slot(e.rollupID) < Pow2(height) && !Skipped(H, s.db, e, height)
    requires !HasRoot(s.db.roots, Root(H, Expected(t.es + [e]), height))
    ensures var r := Process(H, s, e, height);
            r.Some? && Good(H, height, r.value, t.ws + [AsWrite(e)], t.es + [e])
  {
    hide Good, Process, Skipped, Root, Pow2, UpTo, Injective;
    InjectiveClean(H, height, s.db.rht, U.NewNodes(H, s.db, AsWrite(e), height));
    ProcessGood(H, height, s, t.ws, t.es, e);
  }

  /** The leaves after one event, and after a second one for the same rollup. */
  lemma ExpectedOne(e: Event)
    requires e.exitRoot != 0
    ensures Expected([e]) == map[Slot(e.rollupID) := e.exitRoot]
    ensures U.Applied([AsWrite(e)]) == map[Slot(e.rollupID) := e.exitRoot]
  {
    assert [e][..0] == [] && [AsWrite(e)][..0] == [];
    var none: Leaves := map[];
    assert none[Slot(e.rollupID) := e.exitRoot] == map[Slot(e.rollupID) := e.exitRoot];
  }

  lemma ExpectedTwo(x: Event, y: Event)
    requires x.exitRoot != 0 && y.exitRoot != 0 && Slot(x.rollupID) == Slot(y.rollupID)
    ensures Expected([x] + [y]) == map[Slot(x.rollupID) := y.exitRoot]
  {
    var es := [x] + [y];
    assert es[..1] == [x] && es[1] == y;
    ExpectedOne(x);
  }

  lemma OnePast(H: Hasher, height: nat, s: State, e: Event)
    requires Good(H, height, s, [AsWrite(e)], [e]) && e.exitRoot != 0
    ensures U.Good(H, height, s.db, [AsWrite(e)])
    ensures |s.db.roots| == 1 && s.db.roots[0].hash == Root(H, map[Slot(e.rollupID) := e.exitRoot], height)
  {
    hide Root, Stored, Sound, U.Applied;
    var ws := [AsWrite(e)];
    ExpectedOne(e);
    assert ws[..1] == ws;
    assert U.Trail(ws)[0] == U.Applied(ws);
  }

  lemma FirstNotSkipped(H: Hasher, height: nat, e: Event)
    requires e.exitRoot != 0
    ensures !Skipped(H, Empty().db, e, height) && !HasRoot(Empty().db.roots, Root(H, Expected([e]), height))
  {}

  lemma OtherRootIsNew(H: Hasher, height: nat, roots: seq<RootRow>, i: nat, a: Hash, b: Hash)
    requires Injective(H) && i < Pow2(height) && a != b
    requires |roots| == 1 && roots[0].hash == Root(H, map[i := a], height)
    ensures !HasRoot(roots, Root(H, map[i := b], height))
  {
    hide Root, Pow2, Injective;
    var m, n: Leaves := map[i := a], map[i := b];
    if Root(H, m, height) == Root(H, n, height) {
      RootBinds(H, m, n, height, i);
    }
  }

  lemma FirstTaken(H: Hasher, height: nat, x: Event)
    requires Injective(H) && Slot(x.rollupID) < Pow2(height) && x.exitRoot != 0
    ensures var s := Process(H, Empty(), x, height);
            s.Some? && Good(H, height, s.value, [AsWrite(x)], [x])
  {
    hide Good, Process, Skipped, Pow2, Injective, Root;
    InjectiveClean(H, height, map[], []);
    EmptyGood(H, height);
    FirstNotSkipped(H, height, x);
    assert [] + [x] == [x] && [] + [AsWrite(x)] == [AsWrite(x)];
    FreshTaken(H, height, Empty(), Past([], []), x);
  }

  lemma SecondTaken(H: Hasher, height: nat, s: State, x: Event, y: Event)
    requires Injective(H) && Slot(x.rollupID) == Slot(y.rollupID) < Pow2(height) && x.block < y.block
    requires x.exitRoot != 0 && y.exitRoot != 0 && x.exitRoot != y.exitRoot
    requires Good(H, height, s, [AsWrite(x)], [x])
    ensures var t := Process(H, s, y, height);
            t.Some? && Good(H, height, t.value, [AsWrite(x)] + [AsWrite(y)], [x] + [y])
  {
    hide Good, U.Good, Process, Skipped, Pow2, Injective, Root, Expected, U.Applied;
    OnePast(H, height, s, x);
    ExpectedOne(x);
    ExpectedTwo(x, y);
    NotSkipped(H, height, s.db, [AsWrite(x)], y);
    OtherRootIsNew(H, height, s.db.roots, Slot(x.rollupID), x.exitRoot, y.exitRoot);
    FreshTaken(H, height, s, Past([AsWrite(x)], [x]), y);
  }

  /** The first two are taken, from empty tables, and the third is refused. */
  lemma ThereAndBackFails(H: Hasher, height: nat, rollupID: RollupID, a: Hash, b: Hash)
    requires Injective(H) && Slot(rollupID) < Pow2(height) && a != 0 && b != 0 && a != b
    ensures var es := ThereAndBack(rollupID, a, b);
            ProcessAll(H, Empty(), es[..2], height).Some? && ProcessAll(H, Empty(), es, height).None?
  {
    hide Good, Process, ProcessAll, Pow2, Injective;
    var es := ThereAndBack(rollupID, a, b);
    FirstTaken(H, height, es[0]);
    var s := Process(H, Empty(), es[0], height).value;
    SecondTaken(H, height, s, es[0], es[1]);
    var t := Process(H, s, es[1], height).value;
    ThirdRefused(H, height, t, es[0], es[1], es[2]);
    ThreeInARow(H, es, height, s, t);
  }

  lemma ThirdRefused(H: Hasher, height: nat, t: State, x: Event, y: Event, z: Event)
    requires Injective(H) && Slot(x.rollupID) == Slot(y.rollupID) == Slot(z.rollupID) < Pow2(height)
    requires x.block < y.block < z.block && z.exitRoot == x.exitRoot != y.exitRoot && x.exitRoot != 0
    requires Good(H, height, t, [AsWrite(x)] + [AsWrite(y)], [x] + [y])
    ensures Process(H, t, z, height).None?
  {
    hide Good, Process, Pow2, Injective;
    var ws := [AsWrite(x)] + [AsWrite(y)];
    InjectiveClean(H, height, t.db.rht, U.NewNodes(H, t.db, AsWrite(z), height));
    assert ws[..|ws| - 1] == [AsWrite(x)] && [AsWrite(x)][..0] == [];
    ExpectedOne(x);
    ReturnToFormerExitRootFails(H, height, t, ws, [x] + [y], y, z);
  }

  lemma ThreeInARow(H: Hasher, es: seq<Event>, height: nat, s: State, t: State)
    requires |es| == 3 && Process(H, Empty(), es[0], height) == Some(s) && Process(H, s, es[1], height) == Some(t)
    requires Process(H, t, es[2], height).None?
    ensures ProcessAll(H, Empty(), es[..2], height) == Some(t) && ProcessAll(H, Empty(), es, height).None?
  {
    hide Process;
    var two := es[..2];
    assert two[1..] == [es[1]] && [es[1]][1..] == [] && es[1..][1..] == [es[2]];
    assert ProcessAll(H, t, [], height) == Some(t);
    assert ProcessAll(H, s, [es[1]], height) == Some(t);
    assert ProcessAll(H, t, [es[2]], height).None?;
    assert ProcessAll(H, s, es[1..], height).None?;
  }

  // ----- runs whose blocks come in order -----

  /** The past lies in stored blocks. */
  ghost predicate PastWithin(t: Past, blocks: set<nat>) {
    B.Within(t.ws, U.WriteBlock, blocks) && B.Within(t.es, EventBlock, blocks)
  }

  /** Events of block num, at rising positions above lo. */
  predicate RisingAt(events: seq<Event>, num: nat, lo: int)
    decreases |events|
  {
    events == [] || (events[0].block == num && lo < events[0].pos && RisingAt(events[1..], num, events[0].pos))
  }

  /** The past is before position lo + 1 of block num. */
  ghost predicate Behind(t: Past, num: nat, lo: int) {
    && UpTo(t.ws, t.es, num)
    && (forall k: nat {:trigger t.ws[k]} :: k < |t.ws| ==> t.ws[k].block < num || t.ws[k].pos <= lo)
  }

  /** The nodes that the events write obey the hypothesis on the hash. */
  ghost predicate CleanAll(H: Hasher, s: State, events: seq<Event>, height: nat)
    decreases |events|
  {
    events == [] ||
    var r := Process(H, s, events[0], height);
    && Clean(H, height, s.db.rht, U.NewNodes(H, s.db, AsWrite(events[0]), height))
    && (r.Some? ==> CleanAll(H, r.value, events[1..], height))
  }

  ghost predicate CleanRun(H: Hasher, s: State, ops: seq<Op>, height: nat)
    decreases |ops|
  {
    ops == [] ||
    (&& (ops[0].Block? ==> CleanAll(H, s, ops[0].events, height))
     && CleanRun(H, Step(H, s, ops[0], height), ops[1..], height))
  }

  lemma {:induction false} RisingIsInOrder(
    H: Hasher, s: State, t: Past, events: seq<Event>, num: nat, lo: int, height: nat)
    requires Behind(t, num, lo) && RisingAt(events, num, lo) && CleanAll(H, s, events, height)
    requires Pow2(height) >= 0x1_0000_0000
    ensures InOrder(H, s, t, events, height)
    decreases |events|
  {
    hide Process, Clean, Skipped, Pow2;
    if events != [] {
      var e, r := events[0], Process(H, s, events[0], height);
      assert t.ws != [] ==> t.ws[|t.ws| - 1].block <= num;
      if r.Some? {
        RisingIsInOrder(H, r.value, Past(After(H, s.db, t.ws, e, height), t.es + [e]), events[1..], num, e.pos, height);
      }
    }
  }

  lemma {:induction false} AfterAllWithin(H: Hasher, s: State, t: Past, events: seq<Event>, num: nat, lo: int,
                                          height: nat, blocks: set<nat>)
    requires PastWithin(t, blocks) && RisingAt(events, num, lo) && num in blocks
    ensures PastWithin(AfterAll(H, s, t, events, height), blocks)
    decreases |events|
  {
    hide Process, Skipped;
    if events != [] {
      var e, r := events[0], Process(H, s, events[0], height);
      if r.Some? {
        AfterAllWithin(H, r.value, Past(After(H, s.db, t.ws, e, height), t.es + [e]), events[1..], num, e.pos,
                       height, blocks);
      }
    }
  }

  lemma PastIsBehind(t: Past, blocks: set<nat>, num: nat)
    requires PastWithin(t, blocks) && forall b :: b in blocks ==> b < num
    ensures Behind(t, num, -1)
  {
    forall k: nat {:trigger t.ws[k]} | k < |t.ws|
      ensures t.ws[k].block < num
    {
      assert U.WriteBlock(t.ws[k]) in blocks;
    }
    forall k: nat {:trigger t.es[k]} | k < |t.es|
      ensures t.es[k].block < num
    {
      assert EventBlock(t.es[k]) in blocks;
    }
  }

  lemma KeptWithin(t: Past, from: nat, blocks: set<nat>)
    requires PastWithin(t, blocks)
    ensures PastWithin(Past(U.Kept(t.ws, from), KeptEvents(t.es, from)), set b | b in blocks && b < from)
  {
    B.KeepWithin(t.ws, U.WriteBlock, from, blocks);
    B.KeepWithin(t.es, EventBlock, from, blocks);
  }

  // ----- the method -----

  class Verifier {
    const tree: U.Tree
    var verified: seq<Verified>

    constructor (tree: U.Tree)
      ensures this.tree == tree && verified == []
    {
      this.tree := tree;
      verified := [];
    }

    ghost function Now(): State
      reads this, tree
    {
      State(Db(tree.rht, tree.roots), verified)
    }

    method IsNewValueForRollupExitTree(e: Event) returns (r: bool, ghost answer: Option<RootRow>)
      requires tree.Valid()
      ensures Legal(tree.roots, answer) && r == IsNewUnder(tree.rht, answer, e, tree.height)
    {
      hide Lookup, Legal;
      var currentRoot := GetLastRoot(tree.roots);
      if currentRoot.None? {
        return true, currentRoot;
      }
      var leaf := GetLeaf(tree.rht, Slot(e.rollupID), currentRoot.value.hash, tree.height);
      return leaf.None? || leaf.value != e.exitRoot, currentRoot;
    }

    /** After an error the caller rolls the transaction back. */
    method ProcessVerifyBatches(e: Event)
      returns (ok: bool, ghost asked: Option<RootRow>, ghost used: Option<RootRow>)
      requires tree.Valid()
      modifies this, tree
      ensures Legal(old(tree.roots), asked) && Legal(old(tree.roots), used)
      ensures var r := ProcessUnder(tree.H, old(Now()), asked, used, e, tree.height);
              (ok <==> r.Some?) && (ok ==> Now() == r.value)
    {
      hide IsNewUnder, U.RowOn, U.NodesOn, PutAll, Legal;
      var isNewLeaf;
      isNewLeaf, asked := IsNewValueForRollupExitTree(e);
      used := asked;
      if e.exitRoot == 0 || !isNewLeaf {
        return true, asked, used;
      }
      var newRoot;
      newRoot, used := tree.UpsertLeaf(e.block, e.pos, Slot(e.rollupID), e.exitRoot);
      if newRoot.None? || HasKey(verified, e.block, e.pos) {
        return false, asked, used;
      }
      verified := verified + [Verified(e, newRoot.value)];
      return true, asked, used;
    }
  }
}
