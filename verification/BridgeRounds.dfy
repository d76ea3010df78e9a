/** The bridge syncer and the certificate sender together: what is deposited is certified once. */
module BridgeRounds {
  import opened Merkle
  import opened NodeTable
  import opened Wrappers
  import opened BridgeSync
  import A = AppendOnlyTree
  import S = AggSender
  import B = BlockRows

  /** Steps of the bridge syncer, and then an epoch of the certificate sender on what they left. */
  datatype Round = Round(ops: seq<Op>, headers: map<Hash, S.Status>, updates: bool, reply: S.Reply)

  function Synced(H: Hasher, leaf: Leaf, rounds: seq<Round>): Processor
    decreases |rounds|
  {
    if rounds == [] then Fresh()
    else Run(H, leaf, Synced(H, leaf, rounds[..|rounds| - 1]), rounds[|rounds| - 1].ops)
  }

  function Envs(H: Hasher, leaf: Leaf, rounds: seq<Round>): (r: seq<S.Env>)
    ensures |r| == |rounds|
    decreases |rounds|
  {
    if rounds == [] then []
    else
      var n := |rounds| - 1;
      Envs(H, leaf, rounds[..n])
      + [S.Env(ViewOf(Synced(H, leaf, rounds).tables), rounds[n].headers, rounds[n].updates, rounds[n].reply)]
  }

  function Certified(H: Hasher, leaf: Leaf, rounds: seq<Round>): seq<S.Row> {
    S.Run(S.State([], []), Envs(H, leaf, rounds)).rows
  }

  /** No reorg at or below block b. */
  predicate Above(ops: seq<Op>, b: nat)
    decreases |ops|
  {
    ops == [] || ((ops[0].Reorg? && ops[0].commits ==> b < ops[0].from) && Above(ops[1..], b))
  }

  /** What is asked of the syncer's steps, and that they undo nothing that is certified. */
  ghost predicate Admitted(H: Hasher, leaf: Leaf, p: Processor, ops: seq<Op>, b: nat) {
    FedInOrder(H, leaf, p, ops) && TreeHarmless(H, leaf, p, ops) && Above(ops, b)
  }

  ghost predicate Played(H: Hasher, leaf: Leaf, rounds: seq<Round>)
    decreases |rounds|
  {
    rounds == [] ||
    var n := |rounds| - 1;
    && Played(H, leaf, rounds[..n])
    && Admitted(H, leaf, Synced(H, leaf, rounds[..n]), rounds[n].ops, S.TopTo(Certified(H, leaf, rounds[..n])))
  }

  // ----- what stays below a block -----

  /** Nothing at or below block b differs, and b is still there. */
  ghost predicate Same(t: Tables, u: Tables, b: nat) {
    && B.Keep(t.bridges, BridgeBlock, b + 1) == B.Keep(u.bridges, BridgeBlock, b + 1)
    && (b == 0 || b in u.blocks)
  }

  lemma {:induction false} GoSame(H: Hasher, leaf: Leaf, w: Work, num: nat, events: seq<Event>, b: nat)
    requires b < num && (b == 0 || b in w.tables.blocks)
    ensures Same(w.tables, Go(H, leaf, w, num, events).w.tables, b)
    decreases |events|
  {
    hide A.AddLeaf, B.Keep, HasBridge;
    if events != [] {
      var r := DoEvent(H, leaf, w, num, events[0]);
      if events[0].bridge.Some? {
        var row := events[0].bridge.value;
        B.KeepPush(w.tables.bridges, row.(bridge := row.bridge.(block := num)), BridgeBlock, b + 1);
      }
      if r.Done? {
        GoSame(H, leaf, r.w, num, events[1..], b);
      }
    }
  }

  lemma StepSame(H: Hasher, leaf: Leaf, p: Processor, op: Op, b: nat)
    requires (op.Feed? ==> InOrder(p.tables, op.b)) && Above([op], b) && (b == 0 || b in p.tables.blocks)
    ensures Same(p.tables, Step(H, leaf, p, op).tables, b)
  {
    hide Go, B.Keep;
    match op
    case Feed(blk, _) =>
      GoSame(H, leaf, Begin(p, blk.num), blk.num, blk.events, b);
    case Reorg(from, commits) =>
      if commits {
        B.KeepTwice(p.tables.bridges, BridgeBlock, from, b + 1);
        B.KeepHas(p.tables.blocks, Num, from, b);
      }
    case Restart =>
  }

  lemma {:induction false} RunSame(H: Hasher, leaf: Leaf, p: Processor, ops: seq<Op>, b: nat)
    requires FedInOrder(H, leaf, p, ops) && Above(ops, b) && (b == 0 || b in p.tables.blocks)
    ensures Same(p.tables, Run(H, leaf, p, ops).tables, b)
    decreases |ops|
  {
    hide Step, InOrder, B.Keep;
    if ops != [] {
      StepSame(H, leaf, p, ops[0], b);
      RunSame(H, leaf, Step(H, leaf, p, ops[0]), ops[1..], b);
    }
  }

  lemma KeptIsUpto(t: Tables, b: nat)
    requires Inv(t)
    ensures var v, n := ViewOf(t), |B.Keep(t.bridges, BridgeBlock, b + 1)|;
            && S.Upto(v.bridges, b) == n <= |t.bridges|
            && B.Keep(t.bridges, BridgeBlock, b + 1) == t.bridges[..n]
  {
    hide B.Keep;
    var v, n := ViewOf(t), |B.Keep(t.bridges, BridgeBlock, b + 1)|;
    B.KeepCuts(t.bridges, BridgeBlock, b + 1);
    forall i: nat, j: nat {:trigger v.bridges[i], v.bridges[j]} | i < j < |v.bridges|
      ensures v.bridges[i].block <= v.bridges[j].block
    {
      assert BridgeBlock(t.bridges[i]) <= BridgeBlock(t.bridges[j]);
    }
    forall i: nat {:trigger v.bridges[i]} | i < |v.bridges|
      ensures i < n <==> v.bridges[i].block <= b
    {
      assert v.bridges[i] == t.bridges[i].bridge;
    }
    S.UptoIs(v.bridges, b, n);
  }

  lemma LastIsLast(t: Tables, b: nat)
    requires Inv(t) && b in t.blocks
    ensures b <= LastBlock(t)
  {
    hide B.Rising;
    var i: nat :| i < |t.blocks| && t.blocks[i] == b;
    assert i < |t.blocks| - 1 ==> t.blocks[i] < t.blocks[|t.blocks| - 1];
  }

  lemma SameIsSameUpto(t: Tables, u: Tables, b: nat)
    requires Inv(t) && Inv(u) && Same(t, u, b)
    ensures S.SameUpto(ViewOf(t), ViewOf(u), b)
  {
    hide Inv, B.Keep, S.Upto;
    KeptIsUpto(t, b);
    KeptIsUpto(u, b);
    if b != 0 {
      LastIsLast(u, b);
    }
    var v, w, n := ViewOf(t), ViewOf(u), |B.Keep(t.bridges, BridgeBlock, b + 1)|;
    forall i: nat | i < n
      ensures v.bridges[i] == w.bridges[i]
    {
      assert t.bridges[..n][i] == u.bridges[..n][i];
    }
    assert v.bridges[..n] == w.bridges[..n];
  }

  // ----- the rounds -----

  /** A certificate ends at the last block that the syncer had then. */
  lemma TopAfter(s: S.State, env: S.Env)
    requires S.Good(s.rows) && S.Sane(env)
    ensures S.TopTo(S.Step(s, env).rows) in {S.TopTo(s.rows), env.view.last}
  {
    hide S.Good, S.Sane, S.PollAll, S.Saved, S.Stored;
    S.PollGood(s.rows, env);
    var p := S.PollAll(s.rows, env);
    if !p.pending && S.Stored(p.rows, env).Some? {
      S.SendIs(p.rows, env);
      StoredTo(p.rows, env);
    }
  }

  lemma StoredTo(rows: seq<S.Row>, env: S.Env)
    requires S.Stored(rows, env).Some?
    ensures S.Stored(rows, env).value.to == env.view.last
  {
    hide S.Published, S.ByStatus, S.Saved;
  }

  lemma EnvsFront(H: Hasher, leaf: Leaf, rounds: seq<Round>, envs: seq<S.Env>)
    requires rounds != [] && envs == Envs(H, leaf, rounds)
    ensures var n := |rounds| - 1;
            envs[..n] == Envs(H, leaf, rounds[..n]) && envs[n].view == ViewOf(Synced(H, leaf, rounds).tables)
  {
    hide Synced;
  }

  lemma {:induction false} RoundsSteady(H: Hasher, leaf: Leaf, rounds: seq<Round>, envs: seq<S.Env>)
    requires CollisionFree(H, ZeroNodes(H, HEIGHT)) && Played(H, leaf, rounds)
    requires envs == Envs(H, leaf, rounds) && S.AllSane(envs)
    ensures Consistent(H, leaf, Synced(H, leaf, rounds)) && S.Steady(H, leaf, envs)
    ensures var b := S.TopTo(Certified(H, leaf, rounds)); b == 0 || b in Synced(H, leaf, rounds).tables.blocks
    decreases |rounds|
  {
    hide Run, ViewOf, Consistent, FedInOrder, TreeHarmless, Above, S.InStep, S.SameUpto, S.Step, S.Sane, Inv, B.Keep;
    if rounds == [] {
      FreshConsistent(H, leaf);
    } else {
      var n := |rounds| - 1;
      var front, was := rounds[..n], envs[..n];
      EnvsFront(H, leaf, rounds, envs);
      RoundsSteady(H, leaf, front, was);
      var p, q, b := Synced(H, leaf, front), Synced(H, leaf, rounds), S.TopTo(Certified(H, leaf, front));
      RunConsistent(H, leaf, p, rounds[n].ops);
      RunSame(H, leaf, p, rounds[n].ops, b);
      ConsistentInStep(H, leaf, p);
      ConsistentInStep(H, leaf, q);
      SameIsSameUpto(p.tables, q.tables, b);
      S.RunInv(was);
      TopAfter(S.Run(S.State([], []), was), envs[n]);
      if n > 0 {
        EnvsFront(H, leaf, front, was);
      }
      SteadyPush(H, leaf, envs);
    }
  }

  lemma SteadyPush(H: Hasher, leaf: Leaf, envs: seq<S.Env>)
    requires envs != []
    requires var n := |envs| - 1;
             S.Steady(H, leaf, envs[..n]) && S.InStep(H, leaf, envs[n].view) && (n > 0 ==> S.Kept(envs, n))
    ensures S.Steady(H, leaf, envs)
  {
    hide S.InStep, S.SameUpto, S.Run;
    var n := |envs| - 1;
    forall k: nat {:trigger envs[k]} | k < |envs|
      ensures S.InStep(H, leaf, envs[k].view)
    {
      assert k < n ==> envs[..n][k] == envs[k];
    }
    forall k: nat {:trigger S.Kept(envs, k)} | 0 < k < |envs|
      ensures S.Kept(envs, k)
    {
      if k < n {
        assert S.Kept(envs[..n], k) && envs[..n][..k] == envs[..k];
      }
    }
  }

  /**
   From the events to the certificates: the bridge syncer takes blocks in order, fails, is reorged above what is
   certified and restarts, the sender runs its epochs in between, and after every round the stored certificates hold
   each bridge of blocks 1..ToBlock once and in order, and the top one ends with the root of their exit tree.
   */
  lemma DepositsCertifiedOnce(H: Hasher, leaf: Leaf, rounds: seq<Round>)
    requires CollisionFree(H, ZeroNodes(H, HEIGHT)) && Played(H, leaf, rounds) && rounds != []
    requires S.AllSane(Envs(H, leaf, rounds))
    ensures var rows, bs := Certified(H, leaf, rounds), ViewOf(Synced(H, leaf, rounds).tables).bridges;
            && S.AllExits(rows) == S.Exits(S.Published(bs, 1, S.TopTo(rows)))
            && (rows != [] ==> S.Top(rows).newLER == S.ExitRoot(H, leaf, bs[..S.Upto(bs, S.TopTo(rows))]))
  {
    hide S.Run, S.ExitRoot, S.Published, S.Upto, S.AllExits, S.Exits, S.AllSane, S.Steady, Synced, ViewOf, Played;
    RoundsSteady(H, leaf, rounds, Envs(H, leaf, rounds));
    S.EveryBridgeOnce(H, leaf, Envs(H, leaf, rounds));
    EnvsFront(H, leaf, rounds, Envs(H, leaf, rounds));
  }
}
