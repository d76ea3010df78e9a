/** Whole runs of the sync protocol, and what the processor holds after a detection pass. */
module SyncRuns {
  import opened Wrappers
  import opened ChainSync
  import opened SyncSteps
  import B = BlockRows

  /** A new processor: `floor` is put in by hand, and syncing starts after it. */
  function Start(chain: Chain, finalized: nat, floor: nat): State {
    State(chain, finalized, floor, [], false, map[], Idle, [], floor + 1, true, None)
  }

  ghost predicate IsRun(hash: HashOf, topics: set<nat>, s: State, es: seq<Event>)
    decreases |es|
  {
    es == [] || (Enabled(s, es[0]) && IsRun(hash, topics, Apply(hash, topics, s, es[0]), es[1..]))
  }

  ghost function After(hash: HashOf, topics: set<nat>, s: State, es: seq<Event>): State
    requires IsRun(hash, topics, s, es)
    decreases |es|
  {
    if es == [] then s else After(hash, topics, Apply(hash, topics, s, es[0]), es[1..])
  }

  lemma {:induction false} RunInv(hash: HashOf, topics: set<nat>, s: State, es: seq<Event>)
    requires Inv(hash, topics, s) && IsRun(hash, topics, s, es)
    ensures Inv(hash, topics, After(hash, topics, s, es))
    decreases |es|
  {
    hide Inv, Apply, Enabled;
    if es != [] {
      StepInv(hash, topics, s, es[0]);
      RunInv(hash, topics, Apply(hash, topics, s, es[0]), es[1..]);
    }
  }

  /** After a pass that found nothing, the processor is exact for the chain as it is. */
  lemma CleanPassIsExact(hash: HashOf, topics: set<nat>, s: State, e: Event)
    requires Binding(hash) && Inv(hash, topics, s) && e.Scan? && Enabled(s, e)
    requires Pass(hash, s.chain, s.finalized, e.hdrs).1.Clean?
    ensures Exact(topics, s.chain, s.floor, Apply(hash, topics, s, e).rows)
  {
    hide Linked, Pass, Watched, ListingOf, On, Ahead, Seen, Exact;
    var rows, taken := s.rows, Taken(s);
    forall k: nat {:trigger rows[k]} | k < |rows|
      ensures On(hash, s.chain, rows[k])
    {
      assert taken[k] == rows[k];
      WatchedMatched(hash, s, e.hdrs, rows[k]);
    }
    OnChainIsExact(hash, topics, s.chain, s.floor, rows);
  }

  /** The rows up to block n; on ascending rows, a prefix. */
  ghost function RowsUpTo(rows: seq<Evm>, n: nat): seq<Evm> {
    Cut(rows, n + 1)
  }

  /**
   When the driver handles a reorg, everything that was already tracked when the pass read the list and
   that survives is exact for the chain the pass read, whatever was downloaded, tracked or processed and
   however the chain moved in between.
   */
  lemma HandledReorgIsExact(hash: HashOf, topics: set<nat>, s: State, e: Event)
    requires Binding(hash) && Inv(hash, topics, s) && e.HandleReorg? && Enabled(s, e)
    ensures var t := Apply(hash, topics, s, e); Exact(topics, s.phase.seen, t.floor, RowsUpTo(t.rows, s.phase.upTo))
  {
    hide Linked, Cut, On;
    CutIsExact(hash, topics, s.phase.seen, s.floor, s.rows, s.phase.first, s.phase.upTo);
    if s.phase.first <= s.floor {
      FloorGoesLast(hash, topics, s.floor, s.rows, s.phase.first);
      NothingUpTo(s.phase.upTo);
      NothingHeld(topics, s.phase.seen, 0, []);
    }
  }

  lemma NothingUpTo(n: nat)
    ensures RowsUpTo([], n) == []
  {
  }

  /** Rows that are on c wherever they are below `first` and not above `upTo`, cut to just those. */
  lemma CutIsExact(hash: HashOf, topics: set<nat>, c: Chain, floor: nat, rows: seq<Evm>, first: nat, upTo: nat)
    requires Binding(hash) && Linked(hash, topics, floor, rows) && Seen(hash, c, rows, first, upTo)
    ensures Exact(topics, c, floor, RowsUpTo(Cut(rows, first), upTo))
  {
    hide Linked, On, Exact, Cut;
    var kept := Cut(rows, first);
    var cut := Cut(kept, upTo + 1);
    CutPrefix(hash, topics, floor, rows, first);
    LinkedSplit(hash, topics, floor, rows, |kept|);
    CutPrefix(hash, topics, floor, kept, upTo + 1);
    LinkedSplit(hash, topics, floor, kept, |cut|);
    forall k: nat {:trigger cut[k]} | k < |cut|
      ensures On(hash, c, cut[k])
    {
      assert cut[k] == kept[k] && kept[k] == rows[k];
    }
    OnChainIsExact(hash, topics, c, floor, cut);
  }

  /** What the driver does before it takes the reorg: it finishes the block in hand, which succeeds or fails. */
  ghost function Finished(hash: HashOf, topics: set<nat>, s: State, fails: bool): State {
    if s.hand.None? then s
    else if s.halted || fails then Apply(hash, topics, s, ProcessFails) else Apply(hash, topics, s, Process)
  }

  lemma ReadyInv(hash: HashOf, topics: set<nat>, s: State, e: Event, fails: bool)
    requires Inv(hash, topics, s) && e.Scan? && Enabled(s, e)
    ensures Inv(hash, topics, Finished(hash, topics, Apply(hash, topics, s, e), fails))
  {
    hide Inv, Pass, ListingOf;
    var found := Apply(hash, topics, s, e);
    ScanInv(hash, topics, s, e);
    if found.hand.Some? {
      if found.halted || fails {
        ProcessFailsInv(hash, topics, found, ProcessFails);
      } else {
        ProcessInv(hash, topics, found, Process);
      }
    }
  }

  /** A pass that finds a reorg, and is handled next, leaves the processor exact for the chain as it is. */
  lemma ReorgPassIsExact(hash: HashOf, topics: set<nat>, s: State, e: Event, fails: bool)
    requires Binding(hash) && Inv(hash, topics, s) && e.Scan? && Enabled(s, e)
    requires Pass(hash, s.chain, s.finalized, e.hdrs).1.Mismatch?
    ensures var ready := Finished(hash, topics, Apply(hash, topics, s, e), fails);
            Enabled(ready, HandleReorg) &&
            var handled := Apply(hash, topics, ready, HandleReorg);
            Enabled(handled, Remove) &&
            var done := Apply(hash, topics, handled, Remove);
            done.phase.Idle? && done.chain == s.chain && Exact(topics, s.chain, done.floor, done.rows)
  {
    hide Inv, Exact, Pass, ListingOf, Cut, On;
    var ready := Finished(hash, topics, Apply(hash, topics, s, e), fails);
    ReadyInv(hash, topics, s, e, fails);
    HandledReorgIsExact(hash, topics, ready, HandleReorg);
    NothingBeyond(hash, topics, s, ready);
  }

  /** When nothing was tracked since the pass, every row is one that it saw. */
  lemma NothingBeyond(hash: HashOf, topics: set<nat>, s: State, ready: State)
    requires Inv(hash, topics, s) && Inv(hash, topics, ready) && ready.phase.Notifying?
    requires ready.phase.upTo == LastOf(s.floor, Taken(s)) && ready.floor == s.floor
    requires ready.rows == s.rows || ready.rows == Taken(s)
    ensures RowsUpTo(Cut(ready.rows, ready.phase.first), ready.phase.upTo) == Cut(ready.rows, ready.phase.first)
  {
    hide Linked, B.Keep, Seen, AllWatched, Ahead;
    var rows, kept := ready.rows, Cut(ready.rows, ready.phase.first);
    CutPrefix(hash, topics, s.floor, rows, ready.phase.first);
    if s.hand.Some? && !s.halted {
      LinkedAscends(hash, topics, LastProcessed(s), Pending(s), 0, 0);
    }
    forall k: nat {:trigger kept[k]} | k < |kept|
      ensures NumOf(kept[k]) < ready.phase.upTo + 1
    {
      assert kept[k] == rows[k];
      LinkedAscends(hash, topics, s.floor, rows, k, |rows| - 1);
    }
    B.KeepAll(kept, NumOf, ready.phase.upTo + 1);
  }

  // ----- a reorg is repaired -----

  /**
   Handling a reorg keeps exactly the rows below it and starts downloading behind the last of them. A halted
   processor is released exactly when something went.
   */
  lemma HandledKeepsIff(hash: HashOf, topics: set<nat>, s: State, b: Evm)
    requires Enabled(s, HandleReorg)
    ensures var t := Apply(hash, topics, s, HandleReorg);
            && (b in t.rows <==> b in s.rows && b.num < s.phase.first)
            && t.floor == (if s.phase.first <= s.floor then 0 else s.floor)
            && t.next == LastProcessed(t) + 1 && t.running && t.hand.None? && t.queue == []
            && (t.halted <==> s.halted && t.floor == s.floor && t.rows == s.rows)
  {
    hide B.Keep;
    B.KeepHas(s.rows, NumOf, s.phase.first, b);
    B.KeepCounts(s.rows, NumOf, s.phase.first);
  }

  /** A pass that finds a reorg, the block in hand, the reorg itself and its removal, one after the other. */
  ghost function Repaired(hash: HashOf, topics: set<nat>, s: State, e: Event, fails: bool): State
    requires e.Scan? && Enabled(s, e) && Pass(hash, s.chain, s.finalized, e.hdrs).1.Mismatch?
  {
    var ready := Finished(hash, topics, Apply(hash, topics, s, e), fails);
    Apply(hash, topics, Apply(hash, topics, ready, HandleReorg), Remove)
  }

  lemma RepairedTracked(hash: HashOf, topics: set<nat>, s: State, e: Event, fails: bool)
    requires e.Scan? && Enabled(s, e) && Pass(hash, s.chain, s.finalized, e.hdrs).1.Mismatch?
    ensures var (pruned, outcome) := Pass(hash, s.chain, s.finalized, e.hdrs);
            && e.hdrs != []
            && Repaired(hash, topics, s, e, fails).tracked
               == Without(s.tracked - pruned, outcome.num, e.hdrs[|e.hdrs| - 1].num)
  {
    hide Pass, Cut, ListingOf, Without;
    var k := PassIs(hash, s.chain, s.finalized, e.hdrs);
  }

  /** The removal untracks exactly what the pass had listed from the mismatch on; later blocks stay tracked. */
  lemma RemovedIff(hash: HashOf, topics: set<nat>, s: State, n: nat)
    requires Enabled(s, Remove)
    ensures var t := Apply(hash, topics, s, Remove);
            && (n in t.tracked <==> n in s.tracked && (n < s.phase.first || s.phase.last < n))
            && (n in t.tracked ==> t.tracked[n] == s.tracked[n])
            && t.rows == s.rows && t.phase.Idle?
  {}

  /** A pass that finds nothing untracks exactly the finalised blocks. */
  lemma CleanPassUntracks(hash: HashOf, topics: set<nat>, s: State, e: Event, n: nat)
    requires e.Scan? && Enabled(s, e) && Pass(hash, s.chain, s.finalized, e.hdrs).1.Clean?
    ensures var t := Apply(hash, topics, s, e);
            && (n in t.tracked <==> n in s.tracked && s.finalized < n)
            && (n in t.tracked ==> t.tracked[n] == s.tracked[n])
            && t.rows == s.rows && t.phase.Idle?
  {
    hide Pass, Agrees;
    var k := PassIs(hash, s.chain, s.finalized, e.hdrs);
    if n in s.tracked {
      assert Header(n, s.tracked[n]) in e.hdrs;
      var i: nat :| i < |e.hdrs| && e.hdrs[i] == Header(n, s.tracked[n]);
    }
  }

  /** Nothing that the pass objected to stays tracked: the next pass over the same chain finds nothing. */
  lemma RepairedIsClean(hash: HashOf, topics: set<nat>, s: State, e: Event, fails: bool, hdrs: seq<Header>)
    requires e.Scan? && Enabled(s, e) && Pass(hash, s.chain, s.finalized, e.hdrs).1.Mismatch?
    requires ListingOf(Repaired(hash, topics, s, e, fails).tracked, hdrs)
    ensures Pass(hash, s.chain, s.finalized, hdrs).1.Clean?
  {
    hide Pass, Repaired, ListingOf, Without, Agrees;
    RepairedTracked(hash, topics, s, e, fails);
    var m := PassIs(hash, s.chain, s.finalized, hdrs);
    if m < |hdrs| {
      LeftAgrees(hash, s.chain, s.finalized, s.tracked, e.hdrs, hdrs, m);
    }
  }

  /** What is left in the list after the removal is what the pass had found on the chain. */
  lemma LeftAgrees(
    hash: HashOf, c: Chain, f: nat, tracked: map<nat, Hash>, hdrs: seq<Header>, left: seq<Header>, m: nat)
    requires ListingOf(tracked, hdrs) && hdrs != [] && Pass(hash, c, f, hdrs).1.Mismatch?
    requires var (pruned, outcome) := Pass(hash, c, f, hdrs);
             ListingOf(Without(tracked - pruned, outcome.num, hdrs[|hdrs| - 1].num), left)
    requires m < |left|
    ensures Agrees(hash, c, left[m])
  {
    hide Pass, Agrees;
    var h := left[m];
    assert h.num in tracked && Header(h.num, tracked[h.num]) in hdrs;
    var i: nat :| i < |hdrs| && hdrs[i] == h;
    assert hdrs[i].num <= hdrs[|hdrs| - 1].num;
    PassMatched(hash, c, f, hdrs, i);
  }

  // ----- and the sync goes on -----

  /** The driver takes and processes n blocks. */
  function Drain(n: nat): seq<Event> {
    if n == 0 then [] else [Track, Process] + Drain(n - 1)
  }

  lemma {:induction false} DrainRuns(hash: HashOf, topics: set<nat>, s: State, n: nat)
    requires !s.halted && s.hand.None? && !s.phase.Removing? && |s.queue| == n
    ensures IsRun(hash, topics, s, Drain(n))
    ensures var t := After(hash, topics, s, Drain(n));
            && t == s.(rows := s.rows + s.queue, queue := [], tracked := t.tracked)
    decreases n
  {
    if n == 0 {
      assert s.rows + s.queue == s.rows;
    } else {
      var b, rest := s.queue[0], s.queue[1..];
      var es := Drain(n);
      var one := Apply(hash, topics, s, Track);
      var two := Apply(hash, topics, one, Process);
      assert es[0] == Track && es[1..][0] == Process && es[1..][1..] == Drain(n - 1);
      DrainRuns(hash, topics, two, n - 1);
      assert s.rows + [b] + rest == s.rows + s.queue;
      assert IsRun(hash, topics, one, es[1..]);
    }
  }

  lemma {:induction false} WithEventsOn(hash: HashOf, topics: set<nat>, c: Chain, from: nat, end: nat, k: nat)
    requires from <= end <= |c| && k < |WithEvents(hash, topics, c, from, end)|
    ensures On(hash, c, WithEvents(hash, topics, c, from, end)[k])
    decreases end
  {
    if k < |WithEvents(hash, topics, c, from, end - 1)| {
      WithEventsOn(hash, topics, c, from, end - 1, k);
    }
  }

  /** Download one chunk and process it: the processor is then exact up to the end of the chunk. */
  lemma CatchesUp(hash: HashOf, topics: set<nat>, s: State, hdrs: seq<Header>, to: nat)
    requires Binding(hash) && Inv(hash, topics, s) && !s.halted && s.hand.None? && s.queue == []
    requires s.phase.Idle? && ListingOf(s.tracked, hdrs) && Pass(hash, s.chain, s.finalized, hdrs).1.Clean?
    requires s.next <= to < |s.chain|
    ensures var es := [Download(to)] + Drain(|Chunk(hash, topics, s.chain, s.next, to)|);
            && IsRun(hash, topics, s, es)
            && var t := After(hash, topics, s, es);
               && t.chain == s.chain && t.floor == s.floor && LastProcessed(t) == to
               && Exact(topics, s.chain, s.floor, t.rows)
  {
    hide Inv, Pass, ListingOf, Chunk, Exact, Linked, On;
    var sent := Chunk(hash, topics, s.chain, s.next, to);
    var es := [Download(to)] + Drain(|sent|);
    assert es[0] == Download(to) && es[1..] == Drain(|sent|);
    CanDownload(hash, topics, s);
    var got := Apply(hash, topics, s, Download(to));
    assert got.queue == sent;
    DrainRuns(hash, topics, got, |sent|);
    assert IsRun(hash, topics, s, es);
    RunInv(hash, topics, s, es);
    var t := After(hash, topics, s, es);
    ChunkLinked(hash, topics, s.chain, s.next, to);
    RowsLinked(hash, topics, t);
    forall k: nat {:trigger t.rows[k]} | k < |t.rows|
      ensures On(hash, s.chain, t.rows[k])
    {
      if k < |s.rows| {
        RowOn(hash, topics, s, hdrs, k);
      } else {
        ChunkOn(hash, topics, s.chain, s.next, to, k - |s.rows|);
      }
    }
    OnChainIsExact(hash, topics, s.chain, s.floor, t.rows);
  }

  lemma CanDownload(hash: HashOf, topics: set<nat>, s: State)
    requires Inv(hash, topics, s) && !s.halted
    ensures s.running && s.next >= 1
  {}

  lemma RowsLinked(hash: HashOf, topics: set<nat>, s: State)
    requires Inv(hash, topics, s)
    ensures Linked(hash, topics, s.floor, s.rows)
  {}

  lemma RowOn(hash: HashOf, topics: set<nat>, s: State, hdrs: seq<Header>, k: nat)
    requires Inv(hash, topics, s) && ListingOf(s.tracked, hdrs) && Pass(hash, s.chain, s.finalized, hdrs).1.Clean?
    requires k < |s.rows|
    ensures On(hash, s.chain, s.rows[k])
  {
    hide Linked, Pass, ListingOf, On;
    assert Taken(s)[k] == s.rows[k];
    WatchedMatched(hash, s, hdrs, s.rows[k]);
  }

  lemma ChunkOn(hash: HashOf, topics: set<nat>, c: Chain, from: nat, to: nat, k: nat)
    requires from <= to < |c| && k < |Chunk(hash, topics, c, from, to)|
    ensures On(hash, c, Chunk(hash, topics, c, from, to)[k])
  {
    if k < |WithEvents(hash, topics, c, from, to + 1)| {
      WithEventsOn(hash, topics, c, from, to + 1, k);
    }
  }

  /**
   A reorg that is found is repaired: once it is handled and removed, the next pass finds nothing, and unless the
   processor is halted for good, downloading up to any block of the chain makes it exact up to that block.
   */
  lemma ReorgIsRepaired(
    hash: HashOf, topics: set<nat>, s: State, e: Event, fails: bool, hdrs: seq<Header>, to: nat)
    requires Binding(hash) && Inv(hash, topics, s) && e.Scan? && Enabled(s, e)
    requires Pass(hash, s.chain, s.finalized, e.hdrs).1.Mismatch?
    requires ListingOf(Repaired(hash, topics, s, e, fails).tracked, hdrs)
    ensures var t := Repaired(hash, topics, s, e, fails);
            && Pass(hash, t.chain, t.finalized, hdrs).1.Clean?
            && (!t.halted && t.next <= to < |s.chain| ==>
                  var es := [Download(to)] + Drain(|Chunk(hash, topics, s.chain, t.next, to)|);
                  && IsRun(hash, topics, t, es)
                  && LastProcessed(After(hash, topics, t, es)) == to
                  && Exact(topics, s.chain, t.floor, After(hash, topics, t, es).rows))
  {
    hide Inv, Pass, ListingOf, Chunk, Exact, IsRun, After;
    var t := Repaired(hash, topics, s, e, fails);
    RepairedIsClean(hash, topics, s, e, fails, hdrs);
    RepairedInv(hash, topics, s, e, fails);
    if !t.halted && t.next <= to < |s.chain| {
      CatchesUp(hash, topics, t, hdrs, to);
    }
  }

  lemma RepairedInv(hash: HashOf, topics: set<nat>, s: State, e: Event, fails: bool)
    requires Inv(hash, topics, s) && e.Scan? && Enabled(s, e)
    requires Pass(hash, s.chain, s.finalized, e.hdrs).1.Mismatch?
    ensures var t := Repaired(hash, topics, s, e, fails);
            && Inv(hash, topics, t) && t.chain == s.chain && t.finalized == s.finalized
            && t.phase.Idle? && t.hand.None? && t.queue == []
  {
    hide Inv, Pass, ListingOf, Cut, Without;
    var ready := Finished(hash, topics, Apply(hash, topics, s, e), fails);
    ReadyInv(hash, topics, s, e, fails);
    HandleReorgInv(hash, topics, ready, HandleReorg);
    RemoveInv(hash, topics, Apply(hash, topics, ready, HandleReorg), Remove);
  }

  /** What the driver has tracked and the pass did not object to is on the chain the pass read. */
  lemma TakenMatched(hash: HashOf, topics: set<nat>, s: State, hdrs: seq<Header>)
    requires Inv(hash, topics, s) && ListingOf(s.tracked, hdrs)
    ensures var outcome, taken := Pass(hash, s.chain, s.finalized, hdrs).1, Taken(s);
            && Linked(hash, topics, s.floor, taken)
            && (forall k: nat {:trigger taken[k]} :: k < |taken| ==>
                  (outcome.Clean? || (outcome.Mismatch? && taken[k].num < outcome.num) ==> On(hash, s.chain, taken[k])))
  {
    hide Linked, Pass, Watched, On, ListingOf, Seen, Explained, Ahead;
    var taken := Taken(s);
    if s.hand.Some? && !s.halted {
      LinkedFirst(hash, topics, LastProcessed(s), Pending(s));
      LinkedPush(hash, topics, s.floor, s.rows, s.hand.value);
    }
    var outcome := Pass(hash, s.chain, s.finalized, hdrs).1;
    forall k: nat {:trigger taken[k]}
      | k < |taken| && (outcome.Clean? || (outcome.Mismatch? && taken[k].num < outcome.num))
      ensures On(hash, s.chain, taken[k])
    {
      WatchedMatched(hash, s, hdrs, taken[k]);
    }
  }

  /** So whatever a pass finds, the blocks tracked up to it, less those from the mismatch on, are exact. */
  lemma PassIsExact(hash: HashOf, topics: set<nat>, s: State, hdrs: seq<Header>)
    requires Binding(hash) && Inv(hash, topics, s) && ListingOf(s.tracked, hdrs)
    ensures var outcome := Pass(hash, s.chain, s.finalized, hdrs).1;
            && (outcome.Clean? ==> Exact(topics, s.chain, s.floor, Taken(s)))
            && (outcome.Mismatch? ==> Exact(topics, s.chain, s.floor, Cut(Taken(s), outcome.num)))
  {
    hide Inv, Linked, Pass, On, ListingOf, Exact, Cut, Taken;
    var outcome, taken := Pass(hash, s.chain, s.finalized, hdrs).1, Taken(s);
    TakenMatched(hash, topics, s, hdrs);
    if outcome.Clean? {
      OnChainIsExact(hash, topics, s.chain, s.floor, taken);
    } else if outcome.Mismatch? {
      var kept := Cut(taken, outcome.num);
      CutPrefix(hash, topics, s.floor, taken, outcome.num);
      LinkedSplit(hash, topics, s.floor, taken, |kept|);
      forall k: nat {:trigger kept[k]} | k < |kept|
        ensures On(hash, s.chain, kept[k])
      {
        assert kept[k] == taken[k];
      }
      OnChainIsExact(hash, topics, s.chain, s.floor, kept);
    }
  }

  /**
   Over every run from a new processor, whatever its starting block and whatever lies before it: chain growth,
   reorgs above the finalised block, downloads, tracking, processing, halts and detection passes in any order.
   Exactness counts from the block after the one put in by hand. A reorg at or below that block removes it, and the
   sync starts over at block 1.
   - Right after a pass that finds nothing, the processor holds exactly the canonical chain's matching logs.
   - When a pass finds a reorg, the blocks tracked so far, less those from the mismatch on, hold exactly them.
   - When the driver handles a reorg, however long after the pass, the rows that the pass had seen and that are
     left hold exactly the matching logs of the chain that the pass read.
   */
  lemma EveryRunIsExactAfterAPass(
    hash: HashOf, topics: set<nat>, c: Chain, f: nat, start: nat, es: seq<Event>, hdrs: seq<Header>)
    requires Binding(hash) && f < |c| && IsRun(hash, topics, Start(c, f, start), es)
    ensures var s := After(hash, topics, Start(c, f, start), es);
            var outcome := Pass(hash, s.chain, s.finalized, hdrs).1;
            && (s.floor == start || s.floor == 0)
            && (Enabled(s, Scan(hdrs)) && outcome.Clean? ==>
                  && Exact(topics, s.chain, s.floor, Apply(hash, topics, s, Scan(hdrs)).rows)
                  && Exact(topics, s.chain, s.floor, Taken(s)))
            && (Enabled(s, Scan(hdrs)) && outcome.Mismatch? ==>
                  Exact(topics, s.chain, s.floor, Cut(Taken(s), outcome.num)))
            && (Enabled(s, HandleReorg) ==>
                  var t := Apply(hash, topics, s, HandleReorg);
                  Exact(topics, s.phase.seen, t.floor, RowsUpTo(t.rows, s.phase.upTo)))
  {
    hide Inv, Pass, Exact, ListingOf, IsRun, After, Cut, RowsUpTo, Taken;
    var s := After(hash, topics, Start(c, f, start), es);
    StartInv(hash, topics, c, f, start);
    RunInv(hash, topics, Start(c, f, start), es);
    FloorKept(hash, topics, Start(c, f, start), es);
    if Enabled(s, Scan(hdrs)) {
      PassIsExact(hash, topics, s, hdrs);
      if Pass(hash, s.chain, s.finalized, hdrs).1.Clean? {
        CleanPassIsExact(hash, topics, s, Scan(hdrs));
      }
    }
    if Enabled(s, HandleReorg) {
      HandledReorgIsExact(hash, topics, s, HandleReorg);
    }
  }

  /** The block put in by hand is kept or, by a reorg at or below it, given up for good. */
  lemma {:induction false} FloorKept(hash: HashOf, topics: set<nat>, s: State, es: seq<Event>)
    requires IsRun(hash, topics, s, es)
    ensures After(hash, topics, s, es).floor == s.floor || After(hash, topics, s, es).floor == 0
    decreases |es|
  {
    hide Enabled, Pass, Chunk, Cut;
    if es != [] {
      FloorKept(hash, topics, Apply(hash, topics, s, es[0]), es[1..]);
    }
  }

  /** It is given up exactly when a handled reorg starts at or below it. */
  lemma FloorGivenUpIff(hash: HashOf, topics: set<nat>, s: State, e: Event)
    requires Enabled(s, e) && s.floor > 0
    ensures var t := Apply(hash, topics, s, e);
            && (t.floor != s.floor <==> e.HandleReorg? && s.phase.first <= s.floor)
            && (t.floor != s.floor ==> t.floor == 0)
  {
    hide Pass, Chunk, Cut;
  }

  lemma StartInv(hash: HashOf, topics: set<nat>, c: Chain, f: nat, start: nat)
    requires f < |c|
    ensures Inv(hash, topics, Start(c, f, start))
  {}

  // ----- a block that fails -----

  /** After a block that fails nothing is downloaded or processed, and no row changes, before a reorg is handled. */
  lemma {:induction false} FailedStays(hash: HashOf, topics: set<nat>, s: State, es: seq<Event>)
    requires s.halted && !s.running && IsRun(hash, topics, s, es) && HandleReorg !in es
    ensures var t := After(hash, topics, s, es);
            t.rows == s.rows && t.floor == s.floor && t.next == s.next && t.halted && !t.running
    ensures Process !in es && forall to :: Download(to) !in es
    decreases |es|
  {
    hide Pass, ListingOf, Without;
    if es != [] {
      assert es == [es[0]] + es[1..];
      FailedStays(hash, topics, Apply(hash, topics, s, es[0]), es[1..]);
    }
  }

  lemma FailureStops(hash: HashOf, topics: set<nat>, s: State, es: seq<Event>)
    requires s.hand.Some? && IsRun(hash, topics, s, [ProcessFails] + es) && HandleReorg !in es
    ensures var t := After(hash, topics, s, [ProcessFails] + es);
            t.rows == s.rows && t.floor == s.floor && t.next == s.next && t.halted
    ensures Process !in es && forall to :: Download(to) !in es
  {
    var all := [ProcessFails] + es;
    assert all[0] == ProcessFails && all[1..] == es;
    FailedStays(hash, topics, Apply(hash, topics, s, ProcessFails), es);
  }

  // ----- a closed channel -----

  /**
   A halted syncer whose downloader has been cancelled reads a zero block from the closed channel and tracks it.
   The next pass then finds a mismatch at block 0, whatever the chain: every row goes, the sync starts over at block
   1, and the processor is released if it had any row, although no reorg has happened.
   */
  lemma ZeroBlockStartsOver(hash: HashOf, topics: set<nat>, s: State, hdrs: seq<Header>)
    requires Inv(hash, topics, s) && s.halted && s.phase.Idle? && Enabled(s, ReadClosed) && hash(s.chain[..1]) != 0
    requires ListingOf(s.tracked[0 := 0], hdrs)
    ensures var t := Apply(hash, topics, Apply(hash, topics, s, ReadClosed), ProcessFails);
            && Enabled(t, Scan(hdrs))
            && var found := Apply(hash, topics, t, Scan(hdrs));
               found.phase.Notifying? && found.phase.first == 0 && Enabled(found, HandleReorg)
               && var handled := Apply(hash, topics, found, HandleReorg);
                  && handled.rows == [] && handled.floor == 0 && handled.next == 1
                  && (handled.halted <==> s.rows == [] && s.floor == 0)
  {
    hide Linked, Watched, Seen, Cut, ListingOf, Pass, Chunk;
    ZeroMismatch(hash, s.chain, s.finalized, s.tracked[0 := 0], hdrs);
    NothingBelowZero(s.rows);
  }

  lemma ZeroMismatch(hash: HashOf, c: Chain, f: nat, tracked: map<nat, Hash>, hdrs: seq<Header>)
    requires c != [] && ListingOf(tracked, hdrs) && 0 in tracked && tracked[0] == 0 && hash(c[..1]) != 0
    ensures Pass(hash, c, f, hdrs) == ({}, Mismatch(0)) && hdrs != []
  {
    assert Header(0, 0) in hdrs;
    var i: nat :| i < |hdrs| && hdrs[i] == Header(0, 0);
    assert hdrs[0].num <= hdrs[i].num;
  }

  lemma {:induction false} NothingBelowZero(rows: seq<Evm>)
    ensures Cut(rows, 0) == []
    decreases |rows|
  {
    if rows != [] {
      NothingBelowZero(rows[..|rows| - 1]);
    }
  }

  // ----- what the single-snapshot assumption is for -----

  /** A chunk whose logs come from one chain and whose last header comes from another loses a log for good:
      the block is on the new chain, so no pass will ever object to it. */
  lemma TornChunkLosesALog(hash: HashOf, topics: set<nat>, log: Log)
    requires log.topic in topics
    ensures var before: Chain, now: Chain := [[], [], []], [[], [log], []];
            var torn := WithEvents(hash, topics, before, 1, 3) + [Evm(2, hash(now[..3]), [])];
            On(hash, now, torn[|torn| - 1]) && |torn| == 1 && !Exact(topics, now, 0, torn)
  {
    var before: Chain, now: Chain := [[], [], []], [[], [log], []];
    assert Matching(topics, before[1]) == [] && Matching(topics, before[2]) == [];
    assert WithEvents(hash, topics, before, 1, 1) == [];
    assert WithEvents(hash, topics, before, 1, 2) == [];
    assert WithEvents(hash, topics, before, 1, 3) == [];
    var b := Evm(2, hash(now[..3]), []);
    assert [] + [b] == [b];
    assert Matching(topics, [log]) == [log] by {
      assert [log][..0] == [];
    }
    assert Canonical(topics, now, 0, 1) == Canonical(topics, now, 0, 0) + Tagged(1, [log]);
    assert |Canonical(topics, now, 0, 2)| == 1;
    assert Held([b]) == [] by {
      assert [b][..0] == [];
    }
  }
}
