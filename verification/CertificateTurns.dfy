/** What one epoch of the certificate sender does, exactly: what a poll learns, and when a certificate is sent. */
module CertificateTurns {
  import opened Merkle
  import opened Wrappers
  import S = AggSender

  // ----- the poll -----

  /** The answer about the top certificate is one that the poll can act on. */
  predicate Heard(rows: seq<S.Row>, env: S.Env) {
    && S.Top(rows).id in env.headers
    && (env.headers[S.Top(rows).id] == S.Top(rows).status || env.updates)
  }

  /** The rows with what the agglayer says of an unsettled top. */
  function Learned(rows: seq<S.Row>, env: S.Env): seq<S.Row> {
    if rows == [] || S.Top(rows).status in {S.Settled, S.InError} || !Heard(rows, env) then rows
    else rows[..|rows| - 1] + [S.Top(rows).(status := env.headers[S.Top(rows).id])]
  }

  /** Nothing is pending once it is known. */
  predicate Free(rows: seq<S.Row>, env: S.Env) {
    rows == [] || S.Top(rows).status in {S.Settled, S.InError} ||
    (Heard(rows, env) && env.headers[S.Top(rows).id] in {S.Settled, S.InError})
  }

  /** The poll learns the status of an unsettled top, if it can be asked for and stored, and reports what is left. */
  lemma PollIs(rows: seq<S.Row>, env: S.Env)
    requires S.Good(rows)
    ensures S.PollAll(rows, env) == S.Polled(Learned(rows, env), !Free(rows, env))
  {
    hide S.WithStatus, S.Good, S.Poll, S.ByStatus;
    S.PendingIsTop(rows);
    S.PollNone(rows, env);
    var c := S.Top(rows);
    if rows != [] && c.status !in {S.Settled, S.InError} {
      assert c.status.Pending? || c.status.Proven? || c.status.Candidate?;
      S.PollOne(rows, c, env);
      assert rows == rows[..|rows| - 1] + [c];
      if c.id in env.headers {
        S.TopUpdated(rows, env.headers[c.id]);
      }
    }
  }

  // ----- the certificate -----

  /** The first block that is not in the settled certificates. */
  function NextFrom(rows: seq<S.Row>): nat {
    S.FirstBlock(S.Base(rows), |S.Base(rows)|)
  }

  ghost predicate HasBridge(bs: seq<S.Bridge>, from: nat, to: nat) {
    exists b :: b in bs && from <= b.block <= to
  }

  /** The range query returns exactly the bridges of the range. */
  lemma {:induction false} PublishedHas(bs: seq<S.Bridge>, from: nat, to: nat, b: S.Bridge)
    ensures b in S.Published(bs, from, to) <==> b in bs && from <= b.block <= to
    decreases |bs|
  {
    if bs != [] {
      var n := |bs| - 1;
      PublishedHas(bs[..n], from, to, b);
      assert bs == bs[..n] + [bs[n]];
    }
  }

  lemma PublishedIff(bs: seq<S.Bridge>, from: nat, to: nat)
    ensures S.Published(bs, from, to) != [] <==> HasBridge(bs, from, to)
  {
    hide S.Published;
    var r := S.Published(bs, from, to);
    if r != [] {
      PublishedHas(bs, from, to, r[0]);
    }
    forall b | b in bs && from <= b.block <= to
      ensures b in r
    {
      PublishedHas(bs, from, to, b);
    }
  }

  /** The bridges to be certified next, and whether the syncer knows the exit root after the last of them. */
  predicate Due(rows: seq<S.Row>, view: S.View) {
    var bs := S.Published(view.bridges, NextFrom(rows), view.last);
    bs != [] && bs[|bs| - 1].depositCount < |view.roots|
  }

  /** The agglayer takes the certificate, under an id that no settled one has, and the save commits. */
  predicate Answered(rows: seq<S.Row>, reply: S.Reply) {
    reply.Sent? && reply.commits && forall r :: r in S.Base(rows) ==> r.id != reply.id
  }

  /** The certificate for them, field by field. */
  function NextRow(rows: seq<S.Row>, env: S.Env): S.Row
    requires Due(rows, env.view) && env.reply.Sent?
  {
    var bs := S.Published(env.view.bridges, NextFrom(rows), env.view.last);
    S.Row(height := |S.Base(rows)|, id := env.reply.id, status := S.Pending,
          newLER := env.view.roots[bs[|bs| - 1].depositCount], from := NextFrom(rows), to := env.view.last,
          prevLER := if rows == [] then S.ZERO_LER else S.Top(rows).newLER, exits := S.Exits(bs))
  }

  lemma NextFromIs(rows: seq<S.Row>)
    requires S.Good(rows)
    ensures NextFrom(rows) == S.PreviousTo(S.Top(rows)) + 1
    ensures rows == [] || S.Top(rows).newLER != 0
    ensures S.NextHeightAndPreviousLER(S.Top(rows))
            == S.Next(|S.Base(rows)|, if rows == [] then S.ZERO_LER else S.Top(rows).newLER)
  {
    if rows != [] {
      assert S.Linked(rows, |rows| - 1);
    }
  }

  lemma {:induction false} PublishedBeyond(bs: seq<S.Bridge>, from: nat, to: nat)
    requires to < from
    ensures S.Published(bs, from, to) == []
    decreases |bs|
  {
    if bs != [] {
      PublishedBeyond(bs[..|bs| - 1], from, to);
    }
  }

  /** When nothing is pending a certificate is drafted exactly when bridges are due. */
  lemma DraftIs(rows: seq<S.Row>, env: S.Env)
    requires S.Good(rows) && S.ByStatus(rows, S.NON_SETTLED) == [] && env.reply.Sent?
    ensures S.Draft(rows, env.view).Some? <==> Due(rows, env.view)
    ensures Due(rows, env.view) ==> S.Draft(rows, env.view).value.(id := env.reply.id) == NextRow(rows, env)
  {
    hide S.Published, S.Exits, S.Good, S.ByStatus, NextFrom, S.PreviousTo, S.NextHeightAndPreviousLER;
    NextFromIs(rows);
    if env.view.last < NextFrom(rows) {
      PublishedBeyond(env.view.bridges, NextFrom(rows), env.view.last);
    }
  }

  /** When nothing is pending a certificate is stored exactly when bridges are due and the answer allows it. */
  lemma StoredIff(rows: seq<S.Row>, env: S.Env)
    requires S.Good(rows) && S.Sane(env) && S.ByStatus(rows, S.NON_SETTLED) == []
    ensures S.Stored(rows, env).Some? <==> Due(rows, env.view) && Answered(rows, env.reply)
    ensures S.Stored(rows, env).Some? ==> S.Stored(rows, env).value == NextRow(rows, env)
  {
    hide S.Draft, S.Good, S.ByStatus, S.Room, Due, S.Base;
    if env.reply.Sent? {
      DraftIs(rows, env);
      S.RoomIsBase(rows);
    }
  }

  /**
   One epoch, exactly: it learns the status of the top certificate, and if none is then pending, bridges are due and
   the answer allows it, the next certificate goes on top of the settled ones.
   */
  lemma EpochIs(rows: seq<S.Row>, env: S.Env)
    requires S.Good(rows) && S.Sane(env)
    ensures var t := Learned(rows, env);
            S.Epoch(rows, env)
            == if Free(rows, env) && Due(t, env.view) && Answered(t, env.reply)
               then S.Base(t) + [NextRow(t, env)] else t
  {
    hide S.Good, S.Sane, S.PollAll, S.Stored, S.AfterSend, S.ByStatus, Due, Answered, Learned, Free, S.Base;
    PollIs(rows, env);
    S.PollGood(rows, env);
    var t := Learned(rows, env);
    if Free(rows, env) {
      StoredIff(t, env);
      if S.Stored(t, env).Some? {
        S.SendIs(t, env);
      } else {
        S.NotStored(t, env);
      }
    }
  }

  // ----- whole runs -----

  /** On a view in step bridges are due exactly when one is beyond the settled certificates. */
  lemma DueIff(H: Hasher, leaf: S.Exit -> Hash, rows: seq<S.Row>, view: S.View)
    requires S.InStep(H, leaf, view)
    ensures Due(rows, view) <==> HasBridge(view.bridges, NextFrom(rows), view.last)
  {
    hide S.Published, NextFrom, S.ExitRoot;
    var bs := S.Published(view.bridges, NextFrom(rows), view.last);
    PublishedIff(view.bridges, NextFrom(rows), view.last);
    if bs != [] {
      var b := bs[|bs| - 1];
      PublishedHas(view.bridges, NextFrom(rows), view.last, b);
      var i: nat :| i < |view.bridges| && view.bridges[i] == b;
    }
  }

  /**
   The sender catches up: in every run in which L2 history up to the top certificate stands, an epoch that finds
   nothing pending, a bridge that is not certified and an answer that allows it leaves every bridge of the syncer
   certified, once and in order.
   */
  lemma EpochCatchesUp(H: Hasher, leaf: S.Exit -> Hash, envs: seq<S.Env>)
    requires S.AllSane(envs) && S.Steady(H, leaf, envs) && envs != []
    requires var rows, env := S.Run(S.State([], []), envs[..|envs| - 1]).rows, envs[|envs| - 1];
             && Free(rows, env) && Answered(Learned(rows, env), env.reply)
             && HasBridge(env.view.bridges, NextFrom(Learned(rows, env)), env.view.last)
    ensures var rows, v := S.Run(S.State([], []), envs).rows, envs[|envs| - 1].view;
            && S.TopTo(rows) == v.last && S.AllExits(rows) == S.Exits(v.bridges)
            && S.Top(rows).newLER == S.ExitRoot(H, leaf, v.bridges)
  {
    hide S.Good, S.Sane, S.Epoch, Free, Answered, Learned, HasBridge, NextFrom, S.ExitRoot, S.AllExits, S.Exits,
      S.Upto, S.Published, S.InStep, S.SameUpto, S.Base;
    var n := |envs| - 1;
    var s, env := S.Run(S.State([], []), envs[..n]), envs[n];
    assert S.AllSane(envs[..n]);
    S.RunInv(envs[..n]);
    EpochIs(s.rows, env);
    DueIff(H, leaf, Learned(s.rows, env), env.view);
    S.EveryBridgeOnce(H, leaf, envs);
    AllInView(H, leaf, env.view);
  }

  lemma AllInView(H: Hasher, leaf: S.Exit -> Hash, v: S.View)
    requires S.InStep(H, leaf, v)
    ensures S.Published(v.bridges, 1, v.last) == v.bridges && S.Upto(v.bridges, v.last) == |v.bridges|
    ensures v.bridges[..|v.bridges|] == v.bridges
  {
    hide S.ExitRoot;
    S.UptoIs(v.bridges, 0, 0);
    S.UptoIs(v.bridges, v.last, |v.bridges|);
    S.PublishedIsSlice(v.bridges, 1, v.last);
  }
}
