/** Every step of the sync protocol keeps its invariant. */
module SyncSteps {
  import opened Wrappers
  import opened ChainSync
  import B = BlockRows

  // ----- what is watched stays watched -----

  ghost predicate SameWatch(s: State, t: State) {
    s.tracked == t.tracked && s.chain == t.chain && s.finalized == t.finalized
  }

  lemma WatchedFrame(hash: HashOf, s: State, t: State, bs: seq<Evm>, n: nat)
    requires AllWatched(hash, s, bs) && SameWatch(s, t) && n <= |bs|
    ensures AllWatched(hash, t, bs[..n])
  {
    hide On;
  }

  /** Tracking a block above the rows, or block 0, keeps the rows watched. */
  lemma WatchedTrack(hash: HashOf, topics: set<nat>, s: State, t: State, b: Evm)
    requires Linked(hash, topics, s.floor, s.rows) && (b.num == 0 || b.num > LastProcessed(s))
    requires AllWatched(hash, s, s.rows)
    requires t.chain == s.chain && t.finalized == s.finalized && t.tracked == s.tracked[b.num := b.hash]
    ensures AllWatched(hash, t, s.rows) && AllWatched(hash, t, s.rows + [b])
  {
    hide Linked, On;
    var rows := s.rows;
    forall k: nat {:trigger rows[k]} | k < |rows|
      ensures Watched(hash, t, rows[k])
    {
      LinkedAscends(hash, topics, s.floor, rows, k, |rows| - 1);
      assert rows[k].num != b.num;
    }
  }

  lemma WatchedMoves(hash: HashOf, s: State, t: State, bs: seq<Evm>)
    requires AllWatched(hash, s, bs) && t.tracked == s.tracked
    requires s.finalized <= t.finalized && s.finalized < |s.chain| && s.finalized < |t.chain|
    requires t.chain[..s.finalized + 1] == s.chain[..s.finalized + 1]
    ensures AllWatched(hash, t, bs)
  {
    forall k: nat {:trigger bs[k]} | k < |bs|
      ensures Watched(hash, t, bs[k])
    {
      var b := bs[k];
      if b.num <= s.finalized && On(hash, s.chain, b) {
        assert t.chain[..b.num + 1] == t.chain[..s.finalized + 1][..b.num + 1];
        assert s.chain[..b.num + 1] == s.chain[..s.finalized + 1][..b.num + 1];
      }
    }
  }

  lemma WatchedScan(hash: HashOf, s: State, t: State, bs: seq<Evm>, hdrs: seq<Header>)
    requires AllWatched(hash, s, bs) && ListingOf(s.tracked, hdrs) && s.finalized < |s.chain|
    requires t.chain == s.chain && t.finalized == s.finalized
    requires t.tracked == s.tracked - Pass(hash, s.chain, s.finalized, hdrs).0
    ensures AllWatched(hash, t, bs)
  {
    hide Pass, ListingOf, On;
    forall k: nat {:trigger bs[k]} | k < |bs|
      ensures Watched(hash, t, bs[k])
    {
      ScanKeepsWatched(hash, s, hdrs, bs[k]);
    }
  }

  /** Whatever is watched and below the mismatch was seen by the pass. */
  lemma ScanSees(hash: HashOf, s: State, bs: seq<Evm>, hdrs: seq<Header>, upTo: nat)
    requires AllWatched(hash, s, bs) && ListingOf(s.tracked, hdrs)
    requires Pass(hash, s.chain, s.finalized, hdrs).1.Mismatch?
    ensures Seen(hash, s.chain, bs, Pass(hash, s.chain, s.finalized, hdrs).1.num, upTo)
  {
    hide Pass, ListingOf, On, Watched;
    forall k: nat {:trigger bs[k]} | k < |bs| && bs[k].num < Pass(hash, s.chain, s.finalized, hdrs).1.num
      ensures On(hash, s.chain, bs[k])
    {
      WatchedMatched(hash, s, hdrs, bs[k]);
    }
  }

  lemma WatchedBelow(hash: HashOf, s: State, t: State, rows: seq<Evm>, from: nat, to: nat)
    requires AllWatched(hash, s, rows) && Below(rows, from)
    requires t.chain == s.chain && t.finalized == s.finalized && t.tracked == Without(s.tracked, from, to)
    ensures AllWatched(hash, t, rows)
  {
    hide On;
  }

  // ----- what the pass has seen -----

  lemma SeenPush(hash: HashOf, seen: Chain, rows: seq<Evm>, b: Evm, first: nat, upTo: nat)
    requires upTo < b.num && Seen(hash, seen, rows, first, upTo)
    ensures Seen(hash, seen, rows + [b], first, upTo)
  {
    hide On;
  }

  lemma SeenFront(hash: HashOf, seen: Chain, rows: seq<Evm>, b: Evm, first: nat, upTo: nat)
    requires Seen(hash, seen, rows + [b], first, upTo)
    ensures Seen(hash, seen, rows, first, upTo)
  {
    hide On;
    var more := rows + [b];
    assert forall k: nat {:trigger rows[k]} :: k < |rows| ==> rows[k] == more[k];
  }

  // ----- the pending blocks -----

  lemma LinkedFirst(hash: HashOf, topics: set<nat>, prev: nat, bs: seq<Evm>)
    requires Linked(hash, topics, prev, bs) && bs != []
    ensures Explained(hash, topics, prev, bs[0])
  {
    assert Link(hash, topics, prev, bs, 0);
  }

  lemma EmptyLinked(hash: HashOf, topics: set<nat>, prev: nat)
    ensures Linked(hash, topics, prev, []) && Ahead([], prev)
  {}

  lemma LinkedAhead(hash: HashOf, topics: set<nat>, prev: nat, bs: seq<Evm>)
    requires Linked(hash, topics, prev, bs)
    ensures Ahead(bs, prev)
  {
    hide Linked;
    forall k: nat {:trigger bs[k]} | k < |bs|
      ensures bs[k].num > prev
    {
      LinkedAscends(hash, topics, prev, bs, k, k);
    }
  }

  lemma AheadJoin(bs: seq<Evm>, cs: seq<Evm>, n: nat, m: nat)
    requires Ahead(bs, n) && Ahead(cs, m) && n <= m
    ensures Ahead(bs + cs, n)
  {}

  lemma AheadTail(b: Evm, bs: seq<Evm>, n: nat)
    requires Ahead([b] + bs, n)
    ensures Ahead(bs, n)
  {
    var all := [b] + bs;
    assert forall k: nat {:trigger bs[k]} :: k < |bs| ==> bs[k] == all[k + 1];
  }

  lemma AheadFirst(b: Evm, bs: seq<Evm>, n: nat)
    requires Ahead(bs, n) && bs != [] && bs[0] == b
    ensures b.num == 0 || b.num > n
  {}

  /** The first of the pending blocks joins the rows, and the others carry on from it. */
  lemma LinkedMoves(hash: HashOf, topics: set<nat>, floor: nat, rows: seq<Evm>, b: Evm, queue: seq<Evm>)
    requires Linked(hash, topics, floor, rows) && Linked(hash, topics, LastOf(floor, rows), [b] + queue)
    ensures Linked(hash, topics, floor, rows + [b]) && Linked(hash, topics, b.num, queue)
    ensures LastOf(floor, rows) < b.num && LastOf(LastOf(floor, rows), [b] + queue) == LastOf(b.num, queue)
  {
    hide Linked, Explained;
    var p, last := [b] + queue, LastOf(floor, rows);
    assert p[1..] == queue;
    LinkedSplit(hash, topics, last, p, 1);
    LinkedAscends(hash, topics, last, p, 0, 0);
    LinkedFirst(hash, topics, last, p);
    LinkedPush(hash, topics, floor, rows, b);
  }

  // ----- every step keeps the invariant -----

  lemma ChainMovesInv(hash: HashOf, topics: set<nat>, s: State, e: Event)
    requires Inv(hash, topics, s) && e.ChainMoves? && Enabled(s, e)
    ensures Inv(hash, topics, Apply(hash, topics, s, e))
  {
    hide Linked, AllWatched, Ahead, Seen;
    var s' := Apply(hash, topics, s, e);
    assert Pending(s') == Pending(s);
    WatchedMoves(hash, s, s', Taken(s));
  }

  lemma DownloadInv(hash: HashOf, topics: set<nat>, s: State, e: Event)
    requires Inv(hash, topics, s) && e.Download? && Enabled(s, e)
    ensures Inv(hash, topics, Apply(hash, topics, s, e))
  {
    hide Linked, AllWatched, Ahead, Seen, Chunk;
    var s' := Apply(hash, topics, s, e);
    var sent := Chunk(hash, topics, s.chain, s.next, e.to);
    ChunkLinked(hash, topics, s.chain, s.next, e.to);
    assert Pending(s') == Pending(s) + sent && Taken(s')[..|Taken(s)|] == Taken(s);
    LinkedAhead(hash, topics, s.next - 1, sent);
    AheadJoin(Pending(s), sent, LastProcessed(s), s.next - 1);
    if !s.halted {
      LinkedJoin(hash, topics, LastProcessed(s), Pending(s), sent);
    }
    WatchedFrame(hash, s, s', Taken(s), |Taken(s)|);
  }

  lemma TrackInv(hash: HashOf, topics: set<nat>, s: State, e: Event)
    requires Inv(hash, topics, s) && e.Track? && Enabled(s, e)
    ensures Inv(hash, topics, Apply(hash, topics, s, e))
  {
    hide Linked, AllWatched, Ahead, Seen;
    var s' := Apply(hash, topics, s, e);
    var b := s.queue[0];
    assert [b] + s.queue[1..] == s.queue;
    assert Pending(s') == Pending(s) == s.queue;
    AheadFirst(b, Pending(s), LastProcessed(s));
    if !s.halted {
      LinkedAscends(hash, topics, LastProcessed(s), Pending(s), 0, 0);
      if s.phase.Notifying? {
        SeenPush(hash, s.phase.seen, s.rows, b, s.phase.first, s.phase.upTo);
      }
    }
    WatchedTrack(hash, topics, s, s', b);
  }

  lemma ProcessInv(hash: HashOf, topics: set<nat>, s: State, e: Event)
    requires Inv(hash, topics, s) && e.Process? && Enabled(s, e)
    ensures Inv(hash, topics, Apply(hash, topics, s, e))
  {
    hide Linked, AllWatched, Ahead, Seen;
    var s' := Apply(hash, topics, s, e);
    var b := s.hand.value;
    assert Taken(s') == Taken(s) == Taken(s)[..|Taken(s)|];
    assert Pending(s) == [b] + s.queue && Pending(s') == s.queue;
    LinkedMoves(hash, topics, s.floor, s.rows, b, s.queue);
    LinkedAhead(hash, topics, b.num, s.queue);
    WatchedFrame(hash, s, s', Taken(s), |Taken(s)|);
    NextAfter(hash, topics, b.num, s.queue);
  }

  lemma NextAfter(hash: HashOf, topics: set<nat>, prev: nat, bs: seq<Evm>)
    requires Linked(hash, topics, prev, bs)
    ensures LastOf(prev, bs) >= prev
  {
    hide Linked;
    if bs != [] {
      LinkedAscends(hash, topics, prev, bs, |bs| - 1, |bs| - 1);
    }
  }

  lemma ProcessFailsInv(hash: HashOf, topics: set<nat>, s: State, e: Event)
    requires Inv(hash, topics, s) && e.ProcessFails? && Enabled(s, e)
    ensures Inv(hash, topics, Apply(hash, topics, s, e))
  {
    hide Linked, AllWatched, Ahead, Seen;
    var s' := Apply(hash, topics, s, e);
    if s.phase.Notifying? && !s.halted {
      SeenFront(hash, s.phase.seen, s.rows, s.hand.value, s.phase.first, s.phase.upTo);
    }
    assert Pending(s) == [s.hand.value] + s.queue && Pending(s') == s.queue;
    AheadTail(s.hand.value, s.queue, LastProcessed(s));
    assert Taken(s)[..|s.rows|] == s.rows;
    WatchedFrame(hash, s, s', Taken(s), |s.rows|);
  }

  lemma ReadClosedInv(hash: HashOf, topics: set<nat>, s: State, e: Event)
    requires Inv(hash, topics, s) && e.ReadClosed? && Enabled(s, e)
    ensures Inv(hash, topics, Apply(hash, topics, s, e))
  {
    hide Linked, AllWatched, Seen;
    var s' := Apply(hash, topics, s, e);
    assert Pending(s') == [Evm(0, 0, [])];
    WatchedTrack(hash, topics, s, s', Evm(0, 0, []));
  }

  lemma ScanInv(hash: HashOf, topics: set<nat>, s: State, e: Event)
    requires Inv(hash, topics, s) && e.Scan? && Enabled(s, e)
    ensures Inv(hash, topics, Apply(hash, topics, s, e))
  {
    hide Linked, AllWatched, Ahead, Seen, Pass, ListingOf;
    var s' := Apply(hash, topics, s, e);
    assert Pending(s') == Pending(s);
    WatchedScan(hash, s, s', Taken(s), e.hdrs);
    if Pass(hash, s.chain, s.finalized, e.hdrs).1.Mismatch? {
      ScanSees(hash, s, Taken(s), e.hdrs, s'.phase.upTo);
    }
  }

  /** On ascending rows the cut keeps a prefix. */
  lemma CutPrefix(hash: HashOf, topics: set<nat>, floor: nat, rows: seq<Evm>, n: nat)
    requires Linked(hash, topics, floor, rows)
    ensures |Cut(rows, n)| <= |rows| && Cut(rows, n) == rows[..|Cut(rows, n)|]
    ensures forall k: nat {:trigger rows[k]} :: k < |rows| ==> (k < |Cut(rows, n)| <==> rows[k].num < n)
  {
    hide Linked, B.Keep;
    forall i: nat, j: nat {:trigger rows[i], rows[j]} | i < j < |rows|
      ensures NumOf(rows[i]) <= NumOf(rows[j])
    {
      LinkedAscends(hash, topics, floor, rows, i, j);
    }
    B.KeepCuts(rows, NumOf, n);
  }

  lemma HandleReorgInv(hash: HashOf, topics: set<nat>, s: State, e: Event)
    requires Inv(hash, topics, s) && e.HandleReorg? && Enabled(s, e)
    ensures Inv(hash, topics, Apply(hash, topics, s, e))
  {
    hide Linked, AllWatched, Ahead, Seen, Cut;
    var s' := Apply(hash, topics, s, e);
    CutPrefix(hash, topics, s.floor, s.rows, s.phase.first);
    LinkedSplit(hash, topics, s.floor, s.rows, |s'.rows|);
    FloorGoesLast(hash, topics, s.floor, s.rows, s.phase.first);
    WatchedFrame(hash, s, s', Taken(s), |s'.rows|);
    forall k: nat {:trigger s'.rows[k]} | k < |s'.rows|
      ensures s'.rows[k].num < s.phase.first
    {
      assert s'.rows[k] == s.rows[k];
    }
    assert Pending(s') == [];
    EmptyLinked(hash, topics, 0);
    EmptyLinked(hash, topics, LastProcessed(s'));
  }

  /** A cut at or below the floor leaves no row. */
  lemma FloorGoesLast(hash: HashOf, topics: set<nat>, floor: nat, rows: seq<Evm>, first: nat)
    requires Linked(hash, topics, floor, rows)
    ensures first <= floor ==> Cut(rows, first) == []
  {
    hide Linked, Cut;
    CutPrefix(hash, topics, floor, rows, first);
    if rows != [] {
      LinkedAscends(hash, topics, floor, rows, 0, 0);
    }
  }

  lemma RemoveInv(hash: HashOf, topics: set<nat>, s: State, e: Event)
    requires Inv(hash, topics, s) && e.Remove? && Enabled(s, e)
    ensures Inv(hash, topics, Apply(hash, topics, s, e))
  {
    hide Linked, AllWatched, Ahead, Below, Without;
    var s' := Apply(hash, topics, s, e);
    assert Pending(s') == Pending(s);
    WatchedBelow(hash, s, s', s.rows, s.phase.first, s.phase.last);
  }

  lemma StepInv(hash: HashOf, topics: set<nat>, s: State, e: Event)
    requires Inv(hash, topics, s) && Enabled(s, e)
    ensures Inv(hash, topics, Apply(hash, topics, s, e))
  {
    hide Inv, Apply, Enabled;
    match e
    case ChainMoves(_, _) => ChainMovesInv(hash, topics, s, e);
    case Download(_) => DownloadInv(hash, topics, s, e);
    case Track => TrackInv(hash, topics, s, e);
    case Process => ProcessInv(hash, topics, s, e);
    case ProcessFails => ProcessFailsInv(hash, topics, s, e);
    case ReadClosed => ReadClosedInv(hash, topics, s, e);
    case Scan(_) => ScanInv(hash, topics, s, e);
    case HandleReorg => HandleReorgInv(hash, topics, s, e);
    case Remove => RemoveInv(hash, topics, s, e);
  }
}
