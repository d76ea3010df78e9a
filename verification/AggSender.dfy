/**
 The certificate sender: a table of sent certificates, a poll of their status and the sending of the next
 certificate, run once per epoch. What the agglayer and the L2 bridge syncer answer is a parameter of each run.
 */
module AggSender {
  import opened Merkle
  import opened Wrappers
  import B = BlockRows

  // ----- bridges and certificates -----

  datatype TokenInfo = TokenInfo(originNetwork: nat, originAddress: nat)

  datatype Exit = Exit(leafType: nat, token: TokenInfo, destinationNetwork: nat, destinationAddress: nat,
                       amount: nat, metadata: seq<nat>)

  datatype Bridge = Bridge(block: nat, leafType: nat, originNetwork: nat, originAddress: nat, destinationNetwork: nat,
                           destinationAddress: nat, amount: nat, metadata: seq<nat>, depositCount: nat)

  datatype Status = Pending | Proven | Candidate | InError | Settled

  /** A row of the certificate table. PrevLER and the exits are inside the signed certificate it stores. */
  datatype Row = Row(height: nat, id: Hash, status: Status, newLER: Hash, from: nat, to: nat, prevLER: Hash,
    exits: seq<Exit>)

  const NON_SETTLED: set<Status> := {Pending, Candidate, Proven}

  /** Previous local exit root of the first certificate. */
  const ZERO_LER: Hash := 0x27ae5ba08d7291c96c8cbddcc148bf48a6d68c7974b94356f53754ef6171d757

  function ExitOf(b: Bridge): Exit {
    Exit(b.leafType, TokenInfo(b.originNetwork, b.originAddress), b.destinationNetwork, b.destinationAddress,
      b.amount, b.metadata)
  }

  /** The exit repeats the bridge field by field; the token is the origin. */
  predicate Repeats(e: Exit, b: Bridge) {
    && e.leafType == b.leafType && e.amount == b.amount && e.metadata == b.metadata
    && e.token.originNetwork == b.originNetwork && e.token.originAddress == b.originAddress
    && e.destinationNetwork == b.destinationNetwork && e.destinationAddress == b.destinationAddress
  }

  function Exits(bs: seq<Bridge>): (r: seq<Exit>)
    ensures |r| == |bs|
  {
    seq(|bs|, i requires 0 <= i < |bs| => ExitOf(bs[i]))
  }

  method GetBridgeExits(bridges: seq<Bridge>) returns (exits: seq<Exit>)
    ensures exits == Exits(bridges)
    ensures forall i: nat {:trigger exits[i]} {:trigger bridges[i]} :: i < |bridges| ==> Repeats(exits[i], bridges[i])
  {
    exits := [];
    for i := 0 to |bridges|
      invariant exits == Exits(bridges)[..i]
    {
      var b := bridges[i];
      exits := exits + [Exit(b.leafType, TokenInfo(b.originNetwork, b.originAddress), b.destinationNetwork,
                             b.destinationAddress, b.amount, b.metadata)];
    }
    assert Exits(bridges)[..|bridges|] == Exits(bridges);
  }

  // ----- the table, ordered by height -----

  function ByStatus(rows: seq<Row>, statuses: set<Status>): seq<Row> {
    if rows == [] then [] else
    var n := |rows| - 1;
    ByStatus(rows[..n], statuses) + if rows[n].status in statuses then [rows[n]] else []
  }

  function AtHeight(rows: seq<Row>, height: nat): Option<Row> {
    if rows == [] then None else
    if rows[0].height == height then Some(rows[0]) else AtHeight(rows[1..], height)
  }

  function Deleted(rows: seq<Row>, id: Hash): seq<Row> {
    if rows == [] then [] else
    var n := |rows| - 1;
    Deleted(rows[..n], id) + if rows[n].id == id then [] else [rows[n]]
  }

  predicate HasId(rows: seq<Row>, id: Hash) {
    exists i: nat {:trigger rows[i]} :: i < |rows| && rows[i].id == id
  }

  predicate NotAbove(a: Row, b: Row) {
    a.height <= b.height
  }

  function WithStatus(rows: seq<Row>, id: Hash, status: Status): (r: seq<Row>)
    ensures |r| == |rows|
  {
    seq(|rows|, i requires 0 <= i < |rows| => if rows[i].id == id then rows[i].(status := status) else rows[i])
  }

  /** The rows that stay when r is saved: a row of the same height is deleted first, by its id, unless that is zero. */
  function Room(rows: seq<Row>, height: nat): seq<Row> {
    var c := AtHeight(rows, height);
    if c.Some? && c.value.id != 0 then Deleted(rows, c.value.id) else rows
  }

  /** Saving r; refused when its id, the primary key, is taken. */
  function Saved(rows: seq<Row>, r: Row): Option<seq<Row>> {
    var room := Room(rows, r.height);
    if HasId(room, r.id) then None else Some(B.Insert(room, r, NotAbove))
  }

  /** The highest row; without rows, the zero value. */
  function Top(rows: seq<Row>): Row {
    if rows == [] then Row(0, 0, Pending, 0, 0, 0, 0, []) else rows[|rows| - 1]
  }

  class Storage {
    var rows: seq<Row>

    constructor ()
      ensures rows == []
    {
      rows := [];
    }

    /** Without statuses the query has no WHERE clause and returns every row. */
    method GetCertificatesByStatus(statuses: set<Status>) returns (r: seq<Row>)
      ensures r == if statuses == {} then rows else ByStatus(rows, statuses)
    {
      if statuses == {} {
        return rows;
      }
      r := [];
      for i := 0 to |rows|
        invariant r == ByStatus(rows[..i], statuses)
      {
        assert rows[..i + 1][..i] == rows[..i];
        if rows[i].status in statuses {
          r := r + [rows[i]];
        }
      }
      assert rows[..|rows|] == rows;
    }

    method GetCertificateByHeight(height: nat) returns (r: Option<Row>)
      ensures r == AtHeight(rows, height)
    {
      for i := 0 to |rows|
        invariant AtHeight(rows, height) == AtHeight(rows[i..], height)
      {
        if rows[i].height == height {
          return Some(rows[i]);
        }
        assert rows[i..][1..] == rows[i + 1..];
      }
      return None;
    }

    method GetLastSentCertificate() returns (r: Row)
      ensures r == Top(rows)
    {
      if |rows| == 0 {
        return Row(0, 0, Pending, 0, 0, 0, 0, []);
      }
      return rows[|rows| - 1];
    }

    method DeleteCertificate(id: Hash)
      modifies this
      ensures rows == Deleted(old(rows), id)
    {
      var kept: seq<Row> := [];
      for i := 0 to |rows|
        invariant rows == old(rows) && kept == Deleted(rows[..i], id)
      {
        assert rows[..i + 1][..i] == rows[..i];
        if rows[i].id != id {
          kept := kept + [rows[i]];
        }
      }
      assert rows[..|rows|] == rows;
      rows := kept;
    }

    /** One transaction: delete, insert, commit. Without the commit, or when the insert fails, nothing changes. */
    method SaveLastSentCertificate(certificate: Row, commits: bool) returns (ok: bool)
      modifies this
      ensures var s := Saved(old(rows), certificate);
              ok == (s.Some? && commits) && rows == if ok then s.value else old(rows)
    {
      var before := rows;
      var cert := GetCertificateByHeight(certificate.height);
      if cert.Some? && cert.value.id != 0 {
        DeleteCertificate(cert.value.id);
      }
      if HasId(rows, certificate.id) || !commits {
        rows := before;
        return false;
      }
      rows := B.Insert(rows, certificate, NotAbove);
      return true;
    }

    method UpdateCertificateStatus(id: Hash, status: Status)
      modifies this
      ensures rows == WithStatus(old(rows), id, status)
    {
      var updated: seq<Row> := [];
      for i := 0 to |rows|
        invariant rows == old(rows) && updated == WithStatus(rows, id, status)[..i]
      {
        updated := updated + [if rows[i].id == id then rows[i].(status := status) else rows[i]];
      }
      assert WithStatus(rows, id, status)[..|rows|] == WithStatus(rows, id, status);
      rows := updated;
    }
  }

  // ----- what the other parties answer -----

  /** The L2 bridge syncer: its bridges in order, the root of its exit tree after each, its last processed block. */
  datatype View = View(bridges: seq<Bridge>, roots: seq<Hash>, last: nat)

  /** Refused: some call up to SendCertificate failed. Sent: the id, and whether the save after it commits. */
  datatype Reply = Refused | Sent(id: Hash, commits: bool)

  /** `headers` is the agglayer's answer by certificate id; a missing id is an error. */
  datatype Env = Env(view: View, headers: map<Hash, Status>, updates: bool, reply: Reply)

  function Published(bs: seq<Bridge>, from: nat, to: nat): seq<Bridge> {
    if bs == [] then [] else
    var n := |bs| - 1;
    Published(bs[..n], from, to) + if from <= bs[n].block <= to then [bs[n]] else []
  }

  // ----- polling -----

  datatype Polled = Polled(rows: seq<Row>, pending: bool)

  function Poll(rows: seq<Row>, certs: seq<Row>, env: Env): Polled
    decreases |certs|
  {
    if certs == [] then Polled(rows, false)
    else
      var c := certs[0];
      if c.id !in env.headers then Polled(rows, true)
      else if env.headers[c.id] != c.status && !env.updates then Polled(rows, true)
      else
        var next := if env.headers[c.id] != c.status then WithStatus(rows, c.id, env.headers[c.id]) else rows;
        var rest := Poll(next, certs[1..], env);
        Polled(rest.rows, rest.pending || env.headers[c.id] in NON_SETTLED)
  }

  function PollAll(rows: seq<Row>, env: Env): Polled {
    Poll(rows, ByStatus(rows, NON_SETTLED), env)
  }

  // ----- sending -----

  datatype Next = Next(height: nat, prevLER: Hash)

  function NextHeightAndPreviousLER(last: Row): Next {
    if last.newLER == 0 then Next(0, ZERO_LER)
    else Next(if last.status == InError then last.height else last.height + 1, last.newLER)
  }

  function PreviousTo(last: Row): nat {
    if last.status == InError then Wrap64(last.from - 1) else last.to
  }

  /** The certificate that sendCertificate builds, if it builds one. Its id comes from the agglayer. */
  function Draft(rows: seq<Row>, view: View): Option<Row> {
    var last := Top(rows);
    var prev := PreviousTo(last);
    if ByStatus(rows, NON_SETTLED) != [] || prev >= view.last then None
    else
      var bs := Published(view.bridges, prev + 1, view.last);
      if bs == [] || bs[|bs| - 1].depositCount >= |view.roots| then None
      else
        var next := NextHeightAndPreviousLER(last);
        Some(Row(next.height, 0, Pending, view.roots[bs[|bs| - 1].depositCount], prev + 1, view.last, next.prevLER,
          Exits(bs)))
  }

  /** The row that a run of sendCertificate stores, if it gets that far. */
  function Stored(rows: seq<Row>, env: Env): Option<Row> {
    var d := Draft(rows, env.view);
    if d.Some? && env.reply.Sent? && env.reply.commits && Saved(rows, d.value.(id := env.reply.id)).Some?
    then Some(d.value.(id := env.reply.id)) else None
  }

  function AfterSend(rows: seq<Row>, env: Env): seq<Row> {
    var r := Stored(rows, env);
    if r.Some? then Saved(rows, r.value).value else rows
  }

  /** One turn of the loop of sendCertificates. */
  function Epoch(rows: seq<Row>, env: Env): seq<Row> {
    var p := PollAll(rows, env);
    if p.pending then p.rows else AfterSend(p.rows, env)
  }

  class AggSender {
    const storage: Storage

    constructor (storage: Storage)
      ensures this.storage == storage
    {
      this.storage := storage;
    }

    method CheckPendingCertificatesStatus(env: Env) returns (pending: bool)
      modifies storage
      ensures Polled(storage.rows, pending) == PollAll(old(storage.rows), env)
    {
      assert Pending in NON_SETTLED;
      var certs := storage.GetCertificatesByStatus(NON_SETTLED);
      pending := false;
      for i := 0 to |certs|
        invariant var rest := Poll(storage.rows, certs[i..], env);
                  Polled(rest.rows, rest.pending || pending) == PollAll(old(storage.rows), env)
      {
        var c := certs[i];
        assert certs[i..][0] == c && certs[i..][1..] == certs[i + 1..];
        if c.id !in env.headers {
          return true;
        }
        var status := env.headers[c.id];
        if status != c.status {
          if !env.updates {
            return true;
          }
          storage.UpdateCertificateStatus(c.id, status);
        }
        if status in NON_SETTLED {
          pending := true;
        }
      }
    }

    method SendCertificate(env: Env)
      modifies storage
      ensures storage.rows == AfterSend(old(storage.rows), env)
    {
      hide Published, Exits, ByStatus, Saved;
      assert Pending in NON_SETTLED;
      var certs := storage.GetCertificatesByStatus(NON_SETTLED);
      if |certs| != 0 {
        return;
      }
      var lastL2Block := env.view.last;
      var last := storage.GetLastSentCertificate();
      var previousToBlock := last.to;
      if last.status == InError {
        previousToBlock := Wrap64(last.from - 1);
      }
      if previousToBlock >= lastL2Block {
        return;
      }
      var fromBlock := previousToBlock + 1;
      var bridges := Published(env.view.bridges, fromBlock, lastL2Block);
      if |bridges| == 0 {
        return;
      }
      var exits := GetBridgeExits(bridges);
      var depositCount := bridges[|bridges| - 1].depositCount;
      if depositCount >= |env.view.roots| {
        return;
      }
      var next := NextHeightAndPreviousLER(last);
      if env.reply.Refused? {
        return;
      }
      var info := Row(next.height, env.reply.id, Pending, env.view.roots[depositCount], fromBlock, lastL2Block,
        next.prevLER, exits);
      var ok := storage.SaveLastSentCertificate(info, env.reply.commits);
    }

    method OnEpoch(env: Env)
      modifies storage
      ensures storage.rows == Epoch(old(storage.rows), env)
    {
      var pending := CheckPendingCertificatesStatus(env);
      if !pending {
        SendCertificate(env);
      }
    }
  }

  // ----- the invariant of the table -----

  /** First block that certificate i has to cover. */
  function FirstBlock(rows: seq<Row>, i: nat): nat
    requires i <= |rows|
  {
    if i == 0 then 1 else rows[i - 1].to + 1
  }

  ghost predicate Linked(rows: seq<Row>, i: nat)
    requires i < |rows|
  {
    && rows[i].height == i && rows[i].id != 0 && rows[i].newLER != 0
    && FirstBlock(rows, i) == rows[i].from <= rows[i].to < 0x1_0000_0000_0000_0000
    && (i + 1 < |rows| ==> rows[i].status == Settled)
  }

  ghost predicate Distinct(rows: seq<Row>) {
    forall i: nat, j: nat {:trigger rows[i], rows[j]} :: i < j < |rows| ==> rows[i].id != rows[j].id
  }

  /** Heights are 0..k, ranges are contiguous from block 1, and everything below the top is settled. */
  ghost predicate Good(rows: seq<Row>) {
    Distinct(rows) && forall i: nat {:trigger Linked(rows, i)} :: i < |rows| ==> Linked(rows, i)
  }

  ghost predicate AllSettled(rows: seq<Row>) {
    forall i: nat {:trigger rows[i]} :: i < |rows| ==> rows[i].status == Settled
  }

  /** What the environment promises: 64-bit block numbers, ids and exit roots other than zero. */
  ghost predicate Sane(env: Env) {
    && env.view.last < 0x1_0000_0000_0000_0000
    && (env.reply.Sent? ==> env.reply.id != 0)
    && forall i: nat {:trigger env.view.roots[i]} :: i < |env.view.roots| ==> env.view.roots[i] != 0
  }

  lemma GoodPrefix(rows: seq<Row>, k: nat)
    requires Good(rows) && k <= |rows|
    ensures Good(rows[..k]) && (k < |rows| ==> AllSettled(rows[..k]))
  {
    forall i: nat {:trigger Linked(rows[..k], i)} | i < k
      ensures Linked(rows[..k], i)
    {
      assert Linked(rows, i);
    }
    forall i: nat {:trigger rows[..k][i]} | i < k < |rows|
      ensures rows[..k][i].status == Settled
    {
      assert Linked(rows, i);
    }
  }

  lemma GoodPush(rows: seq<Row>, r: Row)
    requires Good(rows) && AllSettled(rows) && !HasId(rows, r.id)
    requires r.height == |rows| && r.id != 0 && r.newLER != 0
    requires FirstBlock(rows, |rows|) == r.from <= r.to < 0x1_0000_0000_0000_0000
    ensures Good(rows + [r])
  {
    var more := rows + [r];
    forall i: nat {:trigger Linked(more, i)} | i < |more|
      ensures Linked(more, i)
    {
      if i < |rows| {
        assert Linked(rows, i);
      }
    }
  }

  lemma {:induction false} NothingPending(rows: seq<Row>)
    requires AllSettled(rows)
    ensures ByStatus(rows, NON_SETTLED) == []
    decreases |rows|
  {
    if rows != [] {
      NothingPending(rows[..|rows| - 1]);
    }
  }

  /** At most one certificate is unsettled, and it is the top one. */
  lemma PendingIsTop(rows: seq<Row>)
    requires Good(rows)
    ensures ByStatus(rows, NON_SETTLED) == if rows != [] && Top(rows).status in NON_SETTLED then [Top(rows)] else []
  {
    if rows != [] {
      GoodPrefix(rows, |rows| - 1);
      NothingPending(rows[..|rows| - 1]);
    }
  }

  lemma {:induction false} RowAtHeight(rows: seq<Row>, i: nat, height: nat)
    requires i <= |rows| && i <= height && forall k: nat {:trigger rows[k]} :: k < |rows| ==> rows[k].height == k
    ensures AtHeight(rows[i..], height) == if height < |rows| then Some(rows[height]) else None
    decreases |rows| - i
  {
    if i < |rows| {
      assert rows[i..][0] == rows[i] && rows[i..][1..] == rows[i + 1..];
      if i < height {
        RowAtHeight(rows, i + 1, height);
      }
    }
  }

  lemma HeightsAreIndexes(rows: seq<Row>, height: nat)
    requires Good(rows)
    ensures AtHeight(rows, height) == if height < |rows| then Some(rows[height]) else None
  {
    forall k: nat {:trigger rows[k]} | k < |rows|
      ensures rows[k].height == k
    {
      assert Linked(rows, k);
    }
    assert rows[0..] == rows;
    RowAtHeight(rows, 0, height);
  }

  lemma {:induction false} DeletedNone(rows: seq<Row>, id: Hash)
    requires !HasId(rows, id)
    ensures Deleted(rows, id) == rows
    decreases |rows|
  {
    if rows != [] {
      var n := |rows| - 1;
      assert rows == rows[..n] + [rows[n]];
      assert forall i: nat {:trigger rows[..n][i]} :: i < n ==> rows[..n][i] == rows[i];
      DeletedNone(rows[..n], id);
    }
  }

  lemma DeletedTop(rows: seq<Row>)
    requires rows != [] && Distinct(rows)
    ensures Deleted(rows, Top(rows).id) == rows[..|rows| - 1]
  {
    var n := |rows| - 1;
    assert forall i: nat {:trigger rows[..n][i]} :: i < n ==> rows[..n][i] == rows[i];
    DeletedNone(rows[..n], rows[n].id);
  }

  /** The rows that the next certificate is put on: all, or all but a failed one. */
  function Base(rows: seq<Row>): seq<Row> {
    if rows != [] && Top(rows).status == InError then rows[..|rows| - 1] else rows
  }

  lemma BaseSettled(rows: seq<Row>)
    requires Good(rows) && ByStatus(rows, NON_SETTLED) == []
    ensures Good(Base(rows)) && AllSettled(Base(rows))
  {
    hide ByStatus, Good;
    PendingIsTop(rows);
    if rows != [] {
      GoodPrefix(rows, |rows| - 1);
      if Top(rows).status != InError {
        assert [Top(rows)] != [];
        AllButTopSettled(rows);
      }
    }
  }

  lemma AllButTopSettled(rows: seq<Row>)
    requires rows != [] && AllSettled(rows[..|rows| - 1]) && Top(rows).status == Settled
    ensures AllSettled(rows)
  {}

  lemma RoomIsBase(rows: seq<Row>)
    requires Good(rows) && ByStatus(rows, NON_SETTLED) == []
    ensures Room(rows, |Base(rows)|) == Base(rows)
  {
    HeightsAreIndexes(rows, |Base(rows)|);
    if rows != [] && Top(rows).status == InError {
      assert Linked(rows, |rows| - 1);
      DeletedTop(rows);
    }
  }

  /** The next certificate goes on top of the base and starts right after it. */
  lemma DraftIsNext(rows: seq<Row>, view: View)
    requires Good(rows) && Draft(rows, view).Some?
    requires view.last < 0x1_0000_0000_0000_0000
    ensures var d, base := Draft(rows, view).value, Base(rows);
            && d.height == |base| && FirstBlock(base, |base|) == d.from <= d.to == view.last
            && d.status == Pending
  {
    if rows != [] {
      assert Linked(rows, |rows| - 1);
    }
  }

  lemma SendIs(rows: seq<Row>, env: Env)
    requires Good(rows) && Sane(env) && Stored(rows, env).Some?
    ensures ByStatus(rows, NON_SETTLED) == []
    ensures AfterSend(rows, env) == Base(rows) + [Stored(rows, env).value]
    ensures Good(AfterSend(rows, env))
  {
    hide Published, Exits, ByStatus, Deleted, AtHeight;
    var r, base := Stored(rows, env).value, Base(rows);
    DraftIsNext(rows, env.view);
    BaseSettled(rows);
    RoomIsBase(rows);
    if base != [] {
      assert Linked(base, |base| - 1);
    }
    GoodPush(base, r);
  }

  // ----- polling keeps it -----

  lemma TopUpdated(rows: seq<Row>, status: Status)
    requires Good(rows) && rows != []
    ensures var r := WithStatus(rows, Top(rows).id, status);
            r == rows[..|rows| - 1] + [Top(rows).(status := status)] && Good(r)
  {
    var n := |rows| - 1;
    var r := WithStatus(rows, Top(rows).id, status);
    assert r == rows[..n] + [Top(rows).(status := status)];
    forall i: nat {:trigger Linked(r, i)} | i < |r|
      ensures Linked(r, i)
    {
      assert Linked(rows, i);
    }
  }

  lemma PollNone(rows: seq<Row>, env: Env)
    ensures Poll(rows, [], env) == Polled(rows, false)
  {}

  lemma PollOne(rows: seq<Row>, c: Row, env: Env)
    ensures Poll(rows, [c], env)
            == if c.id !in env.headers then Polled(rows, true)
               else if env.headers[c.id] == c.status then Polled(rows, c.status in NON_SETTLED)
               else if !env.updates then Polled(rows, true)
               else Polled(WithStatus(rows, c.id, env.headers[c.id]), env.headers[c.id] in NON_SETTLED)
  {
    assert [c][1..] == [];
  }

  /** Polling changes nothing but the status of an unsettled top; when it finds nothing pending, nothing is. */
  lemma PollGood(rows: seq<Row>, env: Env)
    requires Good(rows)
    ensures var p := PollAll(rows, env);
            && Good(p.rows)
            && (p.rows == rows
                || (rows != [] && Top(rows).status in NON_SETTLED
                    && p.rows == rows[..|rows| - 1] + [Top(rows).(status := Top(p.rows).status)]))
            && (!p.pending ==> ByStatus(p.rows, NON_SETTLED) == [])
  {
    hide WithStatus, Good, Poll, ByStatus;
    PendingIsTop(rows);
    PollNone(rows, env);
    if rows != [] && Top(rows).status in NON_SETTLED {
      var c := Top(rows);
      PollOne(rows, c, env);
      if c.id in env.headers {
        TopUpdated(rows, env.headers[c.id]);
        PendingIsTop(WithStatus(rows, c.id, env.headers[c.id]));
      }
    }
  }

  // ----- every run -----

  /**
   The table, and for each row whether it was built on a settled certificate (or on none) rather than on a failed
   one.
   */
  datatype State = State(rows: seq<Row>, direct: seq<bool>)

  function Step(s: State, env: Env): State {
    var p := PollAll(s.rows, env);
    var r := Stored(p.rows, env);
    State(Epoch(s.rows, env),
          if p.pending || r.None? then s.direct
          else
            var kept := if |Base(p.rows)| <= |s.direct| then s.direct[..|Base(p.rows)|] else s.direct;
            kept + [Base(p.rows) == p.rows])
  }

  ghost predicate Chained(s: State, i: nat)
    requires i < |s.rows| == |s.direct|
  {
    s.direct[i] ==> s.rows[i].prevLER == if i == 0 then ZERO_LER else s.rows[i - 1].newLER
  }

  ghost predicate Inv(s: State) {
    && Good(s.rows) && |s.direct| == |s.rows|
    && forall i: nat {:trigger Chained(s, i)} :: i < |s.rows| ==> Chained(s, i)
  }

  /** A certificate built on a settled one, or on none, carries its local exit root. */
  lemma DirectIsChained(rows: seq<Row>, view: View)
    requires Good(rows) && Draft(rows, view).Some? && Base(rows) == rows
    ensures Draft(rows, view).value.prevLER == if rows == [] then ZERO_LER else Top(rows).newLER
  {
    if rows != [] {
      assert Linked(rows, |rows| - 1);
    }
  }

  lemma PolledInv(s: State, env: Env)
    requires Inv(s)
    ensures Inv(State(PollAll(s.rows, env).rows, s.direct))
  {
    hide PollAll;
    PollGood(s.rows, env);
    var t := State(PollAll(s.rows, env).rows, s.direct);
    forall i: nat {:trigger Chained(t, i)} | i < |t.rows|
      ensures Chained(t, i)
    {
      assert Chained(s, i);
    }
  }

  lemma SentInv(s: State, env: Env)
    requires Inv(s) && Sane(env) && Stored(s.rows, env).Some?
    ensures Inv(State(AfterSend(s.rows, env), s.direct[..|Base(s.rows)|] + [Base(s.rows) == s.rows]))
  {
    hide Good, AfterSend, Saved, ByStatus;
    SendIs(s.rows, env);
    var base, r := Base(s.rows), Stored(s.rows, env).value;
    var t := State(base + [r], s.direct[..|base|] + [base == s.rows]);
    if base == s.rows {
      DirectIsChained(s.rows, env.view);
    }
    forall i: nat {:trigger Chained(t, i)} | i < |t.rows|
      ensures Chained(t, i)
    {
      if i < |base| {
        assert Chained(s, i);
      }
    }
  }

  lemma StepInv(s: State, env: Env)
    requires Inv(s) && Sane(env)
    ensures Inv(Step(s, env))
  {
    hide Good, Chained, PollAll, Saved, Stored;
    PolledInv(s, env);
    var p := PollAll(s.rows, env);
    if !p.pending && Stored(p.rows, env).Some? {
      SentInv(State(p.rows, s.direct), env);
    }
  }

  function Run(s: State, envs: seq<Env>): State
    decreases |envs|
  {
    if envs == [] then s else Step(Run(s, envs[..|envs| - 1]), envs[|envs| - 1])
  }

  ghost predicate AllSane(envs: seq<Env>) {
    forall k: nat {:trigger envs[k]} :: k < |envs| ==> Sane(envs[k])
  }

  /** Every run from the empty table, whatever the L2 history does. */
  lemma {:induction false} RunInv(envs: seq<Env>)
    requires AllSane(envs)
    ensures Inv(Run(State([], []), envs))
    decreases |envs|
  {
    hide Step;
    if envs != [] {
      RunInv(envs[..|envs| - 1]);
      StepInv(Run(State([], []), envs[..|envs| - 1]), envs[|envs| - 1]);
    }
  }

  // ----- what never changes -----

  function SettledPart(rows: seq<Row>): seq<Row> {
    if rows != [] && Top(rows).status != Settled then rows[..|rows| - 1] else rows
  }

  /** One turn keeps every settled certificate as it is. */
  lemma StepKeeps(s: State, env: Env)
    requires Inv(s) && Sane(env)
    ensures SettledPart(s.rows) <= SettledPart(Step(s, env).rows)
  {
    hide Good, Chained, PollAll, Stored, AfterSend, Sane, ByStatus;
    PollGood(s.rows, env);
    var p := PollAll(s.rows, env);
    if !p.pending && Stored(p.rows, env).Some? {
      SendIs(p.rows, env);
      StoredIsPending(p.rows, env);
    } else {
      NotStored(p.rows, env);
    }
  }

  lemma StoredIsPending(rows: seq<Row>, env: Env)
    requires Stored(rows, env).Some?
    ensures Stored(rows, env).value.status == Pending
  {}

  lemma NotStored(rows: seq<Row>, env: Env)
    ensures Stored(rows, env).None? ==> AfterSend(rows, env) == rows
  {}

  lemma {:induction false} RunKeeps(envs: seq<Env>, k: nat)
    requires AllSane(envs) && k <= |envs|
    ensures SettledPart(Run(State([], []), envs[..k]).rows) <= SettledPart(Run(State([], []), envs).rows)
    decreases |envs|
  {
    hide Inv, Step, SettledPart;
    if k == |envs| {
      assert envs[..k] == envs;
    } else {
      var front := envs[..|envs| - 1];
      assert front[..k] == envs[..k];
      RunKeeps(front, k);
      RunInv(front);
      StepKeeps(Run(State([], []), front), envs[|envs| - 1]);
    }
  }

  // ----- every bridge once -----

  ghost predicate Sorted(bs: seq<Bridge>) {
    forall i: nat, j: nat {:trigger bs[i], bs[j]} :: i < j < |bs| ==> bs[i].block <= bs[j].block
  }

  /** How many bridges are in blocks up to b. */
  function Upto(bs: seq<Bridge>, b: nat): (n: nat)
    ensures n <= |bs|
  {
    if bs == [] || bs[|bs| - 1].block <= b then |bs| else Upto(bs[..|bs| - 1], b)
  }

  lemma {:induction false} UptoSplits(bs: seq<Bridge>, b: nat)
    requires Sorted(bs)
    ensures forall i: nat {:trigger bs[i]} :: i < |bs| ==> (i < Upto(bs, b) <==> bs[i].block <= b)
    decreases |bs|
  {
    if bs != [] && bs[|bs| - 1].block > b {
      var front := bs[..|bs| - 1];
      assert forall i: nat {:trigger bs[i]} :: i < |front| ==> front[i] == bs[i];
      UptoSplits(front, b);
    }
  }

  lemma UptoIs(bs: seq<Bridge>, b: nat, n: nat)
    requires Sorted(bs) && n <= |bs| && forall i: nat {:trigger bs[i]} :: i < |bs| ==> (i < n <==> bs[i].block <= b)
    ensures Upto(bs, b) == n
  {
    UptoSplits(bs, b);
  }

  lemma UptoMonotone(bs: seq<Bridge>, a: nat, b: nat)
    requires Sorted(bs) && a <= b
    ensures Upto(bs, a) <= Upto(bs, b)
  {}

  /** The query returns the bridges of the range in their order. */
  lemma {:induction false} PublishedIsSlice(bs: seq<Bridge>, from: nat, to: nat)
    requires Sorted(bs) && 1 <= from <= to + 1
    ensures Upto(bs, from - 1) <= Upto(bs, to)
    ensures Published(bs, from, to) == bs[Upto(bs, from - 1)..Upto(bs, to)]
    decreases |bs|
  {
    hide Upto, Sorted, Published;
    UptoMonotone(bs, from - 1, to);
    if bs == [] {
      PublishedNone(bs, from, to);
    } else {
      var n := |bs| - 1;
      UptoFront(bs, from - 1);
      UptoFront(bs, to);
      PublishedIsSlice(bs[..n], from, to);
      PublishedLast(bs, from, to);
      var a, c := Upto(bs[..n], from - 1), Upto(bs[..n], to);
      assert bs[a..c] == bs[..n][a..c];
    }
  }

  lemma PublishedNone(bs: seq<Bridge>, from: nat, to: nat)
    requires bs == []
    ensures Published(bs, from, to) == []
  {}

  lemma PublishedLast(bs: seq<Bridge>, from: nat, to: nat)
    requires bs != []
    ensures var n := |bs| - 1;
            Published(bs, from, to)
            == if from <= bs[n].block <= to then Published(bs[..n], from, to) + [bs[n]]
               else Published(bs[..n], from, to)
  {}

  lemma UptoFront(bs: seq<Bridge>, b: nat)
    requires Sorted(bs) && bs != []
    ensures var n := |bs| - 1;
            && Sorted(bs[..n])
            && Upto(bs[..n], b) == (if bs[n].block <= b then n else Upto(bs, b))
            && Upto(bs, b) == if bs[n].block <= b then n + 1 else Upto(bs[..n], b)
  {}

  function LeafHashes(leaf: Exit -> Hash, bs: seq<Bridge>): (r: seq<Hash>)
    ensures |r| == |bs|
  {
    seq(|bs|, i requires 0 <= i < |bs| => leaf(ExitOf(bs[i])))
  }

  /** Root of the exit tree of these bridges. */
  function ExitRoot(H: Hasher, leaf: Exit -> Hash, bs: seq<Bridge>): Hash {
    Root(H, Listed(LeafHashes(leaf, bs)), 32)
  }

  /**
   The syncer's tables are in step: deposit counts are 0..n-1, in block order, and the roots are those of the
   exit tree.
   */
  ghost predicate InStep(H: Hasher, leaf: Exit -> Hash, v: View) {
    && Sorted(v.bridges) && |v.roots| == |v.bridges|
    && (forall i: nat {:trigger v.bridges[i]} :: i < |v.bridges| ==>
          v.bridges[i].depositCount == i && 1 <= v.bridges[i].block <= v.last)
    && (forall i: nat {:trigger v.roots[i]} :: i < |v.roots| ==> v.roots[i] == ExitRoot(H, leaf, v.bridges[..i + 1]))
  }

  /** Between v and w nothing at or below block b was reorged. */
  ghost predicate SameUpto(v: View, w: View, b: nat) {
    var n := Upto(v.bridges, b);
    n == Upto(w.bridges, b) && v.bridges[..n] == w.bridges[..n] && b <= w.last
  }

  /** Certificate r holds the bridges of its range, at least one, and the exit root after the last of them. */
  ghost predicate Covered(H: Hasher, leaf: Exit -> Hash, v: View, r: Row) {
    && Published(v.bridges, r.from, r.to) != [] && r.exits == Exits(Published(v.bridges, r.from, r.to))
    && r.newLER == ExitRoot(H, leaf, v.bridges[..Upto(v.bridges, r.to)])
  }

  ghost predicate AllCovered(H: Hasher, leaf: Exit -> Hash, v: View, rows: seq<Row>) {
    forall i: nat {:trigger rows[i]} :: i < |rows| ==> Covered(H, leaf, v, rows[i])
  }

  lemma UptoSame(v: View, w: View, b: nat, t: nat)
    requires Sorted(v.bridges) && Sorted(w.bridges) && SameUpto(v, w, b) && t <= b
    ensures Upto(v.bridges, t) == Upto(w.bridges, t) <= Upto(v.bridges, b)
    ensures v.bridges[..Upto(v.bridges, t)] == w.bridges[..Upto(v.bridges, t)]
  {
    var n, u := Upto(v.bridges, b), Upto(v.bridges, t);
    UptoMonotone(v.bridges, t, b);
    UptoSplits(v.bridges, t);
    UptoSplits(w.bridges, b);
    forall i: nat {:trigger w.bridges[i]} | i < |w.bridges|
      ensures i < u <==> w.bridges[i].block <= t
    {
      if i < n {
        assert v.bridges[..n][i] == w.bridges[..n][i];
        assert v.bridges[i] == w.bridges[i];
      }
    }
    UptoIs(w.bridges, t, u);
    assert v.bridges[..u] == v.bridges[..n][..u] && w.bridges[..u] == w.bridges[..n][..u];
  }

  lemma CoveredStays(H: Hasher, leaf: Exit -> Hash, v: View, w: View, b: nat, r: Row)
    requires Sorted(v.bridges) && Sorted(w.bridges) && SameUpto(v, w, b) && 1 <= r.from <= r.to <= b
    requires Covered(H, leaf, v, r)
    ensures Covered(H, leaf, w, r)
  {
    hide Published, Upto, Sorted, ExitRoot, SameUpto;
    PublishedIsSlice(v.bridges, r.from, r.to);
    PublishedIsSlice(w.bridges, r.from, r.to);
    UptoSame(v, w, b, r.from - 1);
    UptoSame(v, w, b, r.to);
    var x, y := Upto(v.bridges, r.from - 1), Upto(v.bridges, r.to);
    assert v.bridges[x..y] == v.bridges[..y][x..] == w.bridges[..y][x..] == w.bridges[x..y];
  }

  lemma DraftCovered(H: Hasher, leaf: Exit -> Hash, rows: seq<Row>, v: View)
    requires InStep(H, leaf, v) && Draft(rows, v).Some?
    ensures Covered(H, leaf, v, Draft(rows, v).value)
  {
    hide ByStatus, ExitRoot;
    var d := Draft(rows, v).value;
    PublishedIsSlice(v.bridges, d.from, v.last);
    var n := |v.bridges|;
    UptoIs(v.bridges, v.last, n);
    assert v.bridges[n - 1].depositCount == n - 1;
    assert v.roots[n - 1] == ExitRoot(H, leaf, v.bridges[..n]);
  }

  function TopTo(rows: seq<Row>): nat {
    if rows == [] then 0 else Top(rows).to
  }

  lemma {:induction false} RangesBelow(rows: seq<Row>, i: nat)
    requires Good(rows) && i < |rows|
    ensures 1 <= rows[i].from <= rows[i].to <= TopTo(rows)
    decreases |rows| - i
  {
    assert Linked(rows, i);
    if i + 1 < |rows| {
      assert Linked(rows, i + 1);
      RangesBelow(rows, i + 1);
    }
  }

  lemma AllCoveredStay(H: Hasher, leaf: Exit -> Hash, v: View, w: View, rows: seq<Row>)
    requires Good(rows) && AllCovered(H, leaf, v, rows)
    requires Sorted(v.bridges) && Sorted(w.bridges) && SameUpto(v, w, TopTo(rows))
    ensures AllCovered(H, leaf, w, rows)
  {
    hide Covered, Good, SameUpto, Sorted;
    forall i: nat {:trigger rows[i]} | i < |rows|
      ensures Covered(H, leaf, w, rows[i])
    {
      RangesBelow(rows, i);
      CoveredStays(H, leaf, v, w, TopTo(rows), rows[i]);
    }
  }

  /** One turn on a view in step with it keeps every certificate covered. */
  lemma StepCovers(H: Hasher, leaf: Exit -> Hash, s: State, env: Env)
    requires Inv(s) && Sane(env) && InStep(H, leaf, env.view) && AllCovered(H, leaf, env.view, s.rows)
    ensures AllCovered(H, leaf, env.view, Step(s, env).rows)
  {
    hide Good, Chained, PollAll, Stored, AfterSend, InStep, Published, Upto, ExitRoot, Exits;
    PollGood(s.rows, env);
    var p := PollAll(s.rows, env);
    assert AllCovered(H, leaf, env.view, p.rows);
    if !p.pending && Stored(p.rows, env).Some? {
      SendIs(p.rows, env);
      StoredCovered(H, leaf, p.rows, env);
    } else {
      NotStored(p.rows, env);
    }
  }

  lemma StoredCovered(H: Hasher, leaf: Exit -> Hash, rows: seq<Row>, env: Env)
    requires InStep(H, leaf, env.view) && Stored(rows, env).Some?
    ensures Covered(H, leaf, env.view, Stored(rows, env).value)
  {
    hide InStep, Draft, Saved;
    DraftCovered(H, leaf, rows, env.view);
  }

  /** A run in which L2 history at or below the top certificate's last block is never reorged. */
  ghost predicate Steady(H: Hasher, leaf: Exit -> Hash, envs: seq<Env>) {
    && (forall k: nat {:trigger envs[k]} :: k < |envs| ==> InStep(H, leaf, envs[k].view))
    && (forall k: nat {:trigger Kept(envs, k)} :: 0 < k < |envs| ==> Kept(envs, k))
  }

  ghost predicate Kept(envs: seq<Env>, k: nat)
    requires 0 < k < |envs|
  {
    SameUpto(envs[k - 1].view, envs[k].view, TopTo(Run(State([], []), envs[..k]).rows))
  }

  lemma SteadyFront(H: Hasher, leaf: Exit -> Hash, envs: seq<Env>)
    requires Steady(H, leaf, envs) && envs != []
    ensures Steady(H, leaf, envs[..|envs| - 1])
  {
    hide InStep, SameUpto, Run;
    var front := envs[..|envs| - 1];
    forall k: nat {:trigger Kept(front, k)} | 0 < k < |front|
      ensures Kept(front, k)
    {
      assert Kept(envs, k) && front[..k] == envs[..k];
    }
  }

  lemma {:induction false} RunCovers(H: Hasher, leaf: Exit -> Hash, envs: seq<Env>)
    requires AllSane(envs) && Steady(H, leaf, envs) && envs != []
    ensures AllCovered(H, leaf, envs[|envs| - 1].view, Run(State([], []), envs).rows)
    decreases |envs|
  {
    hide Step, AllCovered, SameUpto;
    var n := |envs| - 1;
    var front, env := envs[..n], envs[n];
    var s := Run(State([], []), front);
    SteadyFront(H, leaf, envs);
    RunInv(front);
    if n == 0 {
      NothingCovered(H, leaf, env.view);
    } else {
      RunCovers(H, leaf, front);
      assert Kept(envs, n);
      AllCoveredStay(H, leaf, front[n - 1].view, env.view, s.rows);
    }
    StepCovers(H, leaf, s, env);
  }

  lemma NothingCovered(H: Hasher, leaf: Exit -> Hash, v: View)
    ensures AllCovered(H, leaf, v, [])
  {}

  function AllExits(rows: seq<Row>): seq<Exit> {
    if rows == [] then [] else AllExits(rows[..|rows| - 1]) + Top(rows).exits
  }

  lemma {:induction false} ExitsJoin(H: Hasher, leaf: Exit -> Hash, v: View, rows: seq<Row>)
    requires Sorted(v.bridges) && Good(rows) && AllCovered(H, leaf, v, rows)
    ensures AllExits(rows) == Exits(Published(v.bridges, 1, TopTo(rows)))
    decreases |rows|
  {
    hide Published, ExitRoot, Upto;
    PublishedIsSlice(v.bridges, 1, TopTo(rows));
    if rows != [] {
      var n := |rows| - 1;
      var front, r := rows[..n], rows[n];
      GoodPrefix(rows, n);
      assert Linked(rows, n);
      ExitsJoin(H, leaf, v, front);
      PublishedIsSlice(v.bridges, 1, TopTo(front));
      PublishedIsSlice(v.bridges, r.from, r.to);
      var a, b, c := Upto(v.bridges, 0), Upto(v.bridges, r.from - 1), Upto(v.bridges, r.to);
      assert TopTo(front) == r.from - 1;
      assert Exits(v.bridges[a..b]) + Exits(v.bridges[b..c]) == Exits(v.bridges[a..c]);
    }
  }

  /**
   The main result: after any number of epochs, failed sends, failed saves and resends, while L2 history up to the
   top certificate stands, the stored certificates together hold every bridge of blocks 1..ToBlock exactly once
   and in order, and the top one ends with the exit root after the last of them.
   */
  lemma EveryBridgeOnce(H: Hasher, leaf: Exit -> Hash, envs: seq<Env>)
    requires AllSane(envs) && Steady(H, leaf, envs) && envs != []
    ensures var rows, v := Run(State([], []), envs).rows, envs[|envs| - 1].view;
            && AllExits(rows) == Exits(Published(v.bridges, 1, TopTo(rows)))
            && (rows != [] ==> Top(rows).newLER == ExitRoot(H, leaf, v.bridges[..Upto(v.bridges, TopTo(rows))]))
  {
    hide Run, ExitRoot, Published, Upto, AllExits, Exits;
    RunCovers(H, leaf, envs);
    RunInv(envs);
    ExitsJoin(H, leaf, envs[|envs| - 1].view, Run(State([], []), envs).rows);
  }

  // ----- the previous root after a failure -----

  lemma LongerTreesDiffer(H: Hasher, leaf: Exit -> Hash, bs: seq<Bridge>, m: nat, n: nat)
    requires m < n <= |bs| <= Pow2(32) && Injective(H) && leaf(ExitOf(bs[m])) != 0
    ensures ExitRoot(H, leaf, bs[..m]) != ExitRoot(H, leaf, bs[..n])
  {
    hide Root, Pow2;
    assert bs[..n][m] == bs[m];
    if ExitRoot(H, leaf, bs[..m]) == ExitRoot(H, leaf, bs[..n]) {
      RootBinds(H, Listed(LeafHashes(leaf, bs[..m])), Listed(LeafHashes(leaf, bs[..n])), 32, m);
    }
  }

  /**
   With a collision-free hash, the previous local exit root of the next certificate is the exit root before its
   first block exactly when the last certificate is not in error. After an error the root comes from the failed
   certificate itself, which already counts the bridges being sent again.
   */
  lemma PreviousRootRightIff(H: Hasher, leaf: Exit -> Hash, rows: seq<Row>, v: View)
    requires Good(rows) && InStep(H, leaf, v) && AllCovered(H, leaf, v, rows) && Draft(rows, v).Some?
    requires v.last < 0x1_0000_0000_0000_0000 && |v.bridges| <= Pow2(32)
    requires Injective(H) && Zero(H, 32) == ZERO_LER && forall e: Exit :: leaf(e) != 0
    ensures var d := Draft(rows, v).value;
            d.prevLER == ExitRoot(H, leaf, v.bridges[..Upto(v.bridges, d.from - 1)]) <==> Top(rows).status != InError
  {
    hide Injective, ExitRoot, Published, ByStatus, Zero, Pow2, Upto;
    DraftIsNext(rows, v);
    var d := Draft(rows, v).value;
    if rows == [] {
      UptoIs(v.bridges, 0, 0);
      assert v.bridges[..0] == [];
      EmptyExitRoot(H, leaf);
    } else {
      var r := Top(rows);
      assert Linked(rows, |rows| - 1);
      assert Covered(H, leaf, v, rows[|rows| - 1]);
      if r.status == InError {
        PublishedIsSlice(v.bridges, r.from, r.to);
        LongerTreesDiffer(H, leaf, v.bridges, Upto(v.bridges, r.from - 1), Upto(v.bridges, r.to));
      }
    }
  }

  lemma EmptyExitRoot(H: Hasher, leaf: Exit -> Hash)
    ensures ExitRoot(H, leaf, []) == Zero(H, 32)
  {
    NodeVacant(H, Listed(LeafHashes(leaf, [])), 32, 0);
  }

  // ----- zero values taken for missing ones -----

  /**
   The next height is the height above the base exactly unless a stored certificate above height 0 ended in a
   zero root.
   */
  lemma NextHeightRightIff(rows: seq<Row>)
    requires rows != [] && Top(rows).height == |rows| - 1
    ensures NextHeightAndPreviousLER(Top(rows)).height == |Base(rows)|
            <==> Top(rows).newLER != 0 || |Base(rows)| == 0
  {}

  /** A resend replaces the failed certificate exactly when its id is not zero; otherwise two rows share its height. */
  lemma ResendReplacesIff(rows: seq<Row>, r: Row)
    requires rows != [] && Distinct(rows) && !HasId(rows, r.id) && r.height == |rows| - 1
    requires forall k: nat {:trigger rows[k]} :: k < |rows| ==> rows[k].height == k
    ensures Saved(rows, r) == Some(if Top(rows).id != 0 then rows[..|rows| - 1] + [r] else rows + [r])
  {
    hide Deleted, AtHeight;
    var n := |rows| - 1;
    assert rows[0..] == rows;
    RowAtHeight(rows, 0, n);
    DeletedTop(rows);
    assert forall i: nat {:trigger rows[..n][i]} :: i < n ==> rows[..n][i] == rows[i];
  }

  // ----- one bridge, sent, failed and sent again -----

  /** The syncer after one bridge, in block 1, and the two epochs: the first sends, the second learns of the error. */
  function OneBridge(b: Bridge, root: Hash): View {
    View([b], [root], 1)
  }

  function SendsFirst(b: Bridge, root: Hash, id: Hash): Env {
    Env(OneBridge(b, root), map[], true, Sent(id, true))
  }

  function LearnsOfError(b: Bridge, root: Hash, id: Hash, id2: Hash): Env {
    Env(OneBridge(b, root), map[id := InError], true, Sent(id2, true))
  }

  function Certificate(b: Bridge, root: Hash, id: Hash, status: Status, prevLER: Hash): Row {
    Row(0, id, status, root, 1, 1, prevLER, [ExitOf(b)])
  }

  lemma OnePublished(b: Bridge)
    requires b.block == 1
    ensures Published([b], 1, 1) == [b] && Exits([b]) == [ExitOf(b)]
  {
    assert [b][..0] == [];
  }

  lemma OneRow(r: Row, statuses: set<Status>, id: Hash, height: nat)
    ensures ByStatus([r], statuses) == if r.status in statuses then [r] else []
    ensures Deleted([r], id) == if r.id == id then [] else [r]
    ensures AtHeight([r], height) == if r.height == height then Some(r) else None
    ensures HasId([r], id) <==> r.id == id
  {
    assert [r][..0] == [] && [r][1..] == [];
    assert r.id == id ==> [r][0].id == id;
  }

  lemma FirstSend(b: Bridge, root: Hash, id: Hash)
    requires b.block == 1 && b.depositCount == 0 && root != 0
    ensures Epoch([], SendsFirst(b, root, id)) == [Certificate(b, root, id, Pending, ZERO_LER)]
  {
    hide Published, Exits;
    OnePublished(b);
  }

  lemma FailedSend(b: Bridge, root: Hash, id: Hash, id2: Hash)
    requires b.block == 1 && b.depositCount == 0 && root != 0 && id2 != id
    ensures var rows := Epoch([Certificate(b, root, id, Pending, ZERO_LER)], LearnsOfError(b, root, id, id2));
            var failed, again := Certificate(b, root, id, InError, ZERO_LER), Certificate(b, root, id2, Pending, root);
            rows == if id != 0 then [again] else [failed, again]
  {
    hide Published, Exits, ByStatus, Deleted, AtHeight, HasId, Poll;
    var sent, env := Certificate(b, root, id, Pending, ZERO_LER), LearnsOfError(b, root, id, id2);
    var failed := sent.(status := InError);
    OnePublished(b);
    OneRow(sent, NON_SETTLED, id, 0);
    OneRow(failed, NON_SETTLED, id, 0);
    OneRow(failed, NON_SETTLED, id2, 0);
    PollOne([sent], sent, env);
    assert WithStatus([sent], id, InError) == [failed];
    NoId(id2);
    B.InsertStep([failed], Certificate(b, root, id2, Pending, root), NotAbove);
  }

  lemma NoId(id: Hash)
    ensures !HasId([], id)
  {}

  /** After the error the certificate is sent again with the failed root, not the root before it. */
  lemma WrongPreviousRoot(b: Bridge, root: Hash, id: Hash, id2: Hash)
    requires b.block == 1 && b.depositCount == 0 && root != 0 && root != ZERO_LER && id != 0 && id2 != id
    ensures var rows := Epoch(Epoch([], SendsFirst(b, root, id)), LearnsOfError(b, root, id, id2));
            |rows| == 1 && rows[0].from == 1 && rows[0].prevLER == root != ZERO_LER
  {
    hide Epoch;
    FirstSend(b, root, id);
    FailedSend(b, root, id, id2);
  }

  /** Had the failed certificate the id zero, it would stay beside the new one, at the same height. */
  lemma ZeroIdKeepsBoth(b: Bridge, root: Hash, id2: Hash)
    requires b.block == 1 && b.depositCount == 0 && root != 0 && id2 != 0
    ensures var rows := Epoch(Epoch([], SendsFirst(b, root, 0)), LearnsOfError(b, root, 0, id2));
            |rows| == 2 && rows[0].height == rows[1].height
  {
    hide Epoch;
    FirstSend(b, root, 0);
    FailedSend(b, root, 0, id2);
  }
}
