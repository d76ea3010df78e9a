/**
 The sync protocol: a downloader, a driver, a processor and a reorg detector over a chain that may
 be replaced above its finalised block.

 A chain is the list of its blocks, block n at index n, and a block is the list of its logs at the
 queried addresses. A block hash is a function of the chain up to that block, and `Binding` says that
 it fixes that whole prefix.
 */
module ChainSync {
  import opened Wrappers
  import B = BlockRows

  datatype Log = Log(topic: nat, data: nat)

  type Block = seq<Log>

  type Chain = seq<Block>

  type HashOf = Chain -> Hash

  ghost predicate Binding(hash: HashOf) {
    forall c, d :: hash(c) == hash(d) ==> c == d
  }

  /** The logs the syncer asked for. */
  function Matching(topics: set<nat>, b: Block): Block {
    if b == [] then []
    else
      var front, last := Matching(topics, b[..|b| - 1]), b[|b| - 1];
      if last.topic in topics then front + [last] else front
  }

  /** They are taken log by log, in order. */
  lemma {:induction false} MatchingJoins(topics: set<nat>, a: Block, b: Block)
    ensures Matching(topics, a + b) == Matching(topics, a) + Matching(topics, b)
    ensures forall l: Log :: Matching(topics, [l]) == if l.topic in topics then [l] else []
    decreases |b|
  {
    forall l: Log
      ensures Matching(topics, [l]) == if l.topic in topics then [l] else []
    {
      assert [l][..0] == [];
    }
    if b == [] {
      assert a + b == a;
    } else {
      var n := |b| - 1;
      MatchingJoins(topics, a, b[..n]);
      assert (a + b)[..|a + b| - 1] == a + b[..n];
    }
  }

  /** A block as it travels from the downloader to the processor. The processor keeps number and events. */
  datatype Evm = Evm(num: nat, hash: Hash, events: Block)

  datatype Header = Header(num: nat, hash: Hash)

  // ----- what the processor should hold -----

  function Tagged(num: nat, logs: Block): (r: seq<(nat, Log)>)
    ensures |r| == |logs|
  {
    seq(|logs|, i requires 0 <= i < |logs| => (num, logs[i]))
  }

  /** The matching logs of blocks floor+1..n, in order, each with its block number. */
  function Canonical(topics: set<nat>, c: Chain, floor: nat, n: nat): seq<(nat, Log)>
    requires n < |c| || n <= floor
  {
    if n <= floor then [] else Canonical(topics, c, floor, n - 1) + Tagged(n, Matching(topics, c[n]))
  }

  function Held(rows: seq<Evm>): seq<(nat, Log)> {
    if rows == [] then [] else Held(rows[..|rows| - 1]) + Tagged(rows[|rows| - 1].num, rows[|rows| - 1].events)
  }

  /** The number of the last of these blocks; without blocks, that of the block they come after. */
  function LastOf(floor: nat, rows: seq<Evm>): nat {
    if rows == [] then floor else rows[|rows| - 1].num
  }

  // ----- the downloader -----

  /** The blocks from `from` up to but not including `end` that have matching logs. */
  function WithEvents(hash: HashOf, topics: set<nat>, c: Chain, from: nat, end: nat): seq<Evm>
    requires from <= end <= |c|
    decreases end
  {
    if end == from then []
    else
      var before := WithEvents(hash, topics, c, from, end - 1);
      var logs := Matching(topics, c[end - 1]);
      if logs == [] then before else before + [Evm(end - 1, hash(c[..end]), logs)]
  }

  /** What one turn of Download sends: those blocks, and the last block of the range in any case. */
  function Chunk(hash: HashOf, topics: set<nat>, c: Chain, from: nat, to: nat): seq<Evm>
    requires from <= to < |c|
  {
    var blocks := WithEvents(hash, topics, c, from, to + 1);
    if blocks == [] || blocks[|blocks| - 1].num < to then blocks + [Evm(to, hash(c[..to + 1]), [])] else blocks
  }

  // ----- the detector -----

  /** hdrs lists the tracked headers in ascending order. */
  ghost predicate ListingOf(tracked: map<nat, Hash>, hdrs: seq<Header>) {
    && (forall i, j :: 0 <= i < j < |hdrs| ==> hdrs[i].num < hdrs[j].num)
    && (forall i: nat {:trigger hdrs[i]} :: i < |hdrs| ==>
          hdrs[i].num in tracked && tracked[hdrs[i].num] == hdrs[i].hash)
    && (forall n: nat {:trigger n in tracked} :: n in tracked ==> Header(n, tracked[n]) in hdrs)
  }

  datatype Outcome = Clean | Mismatch(num: nat) | Failed

  /** One detection pass over the sorted headers: what it untracks and how it ends. It fails when the
      chain is shorter than a tracked block. */
  function Pass(hash: HashOf, c: Chain, finalized: nat, hdrs: seq<Header>): (set<nat>, Outcome) {
    if hdrs == [] then ({}, Clean)
    else
      var h := hdrs[0];
      if h.num >= |c| then ({}, Failed)
      else if h.hash != hash(c[..h.num + 1]) then ({}, Mismatch(h.num))
      else
        var (pruned, outcome) := Pass(hash, c, finalized, hdrs[1..]);
        (if h.num <= finalized then pruned + {h.num} else pruned, outcome)
  }

  function Without(tracked: map<nat, Hash>, from: nat, to: nat): map<nat, Hash> {
    map n | n in tracked && !(from <= n <= to) :: tracked[n]
  }

  // ----- the protocol -----

  /** Idle; waiting for the driver to take a reorg found on chain `seen`; or waiting to untrack it.
      `upTo` is the last block that the driver had tracked when the pass read the list. */
  datatype Phase = Idle | Notifying(first: nat, last: nat, seen: Chain, upTo: nat) | Removing(first: nat, last: nat)

  /** `floor` is the block that was put in by hand when the syncer was first started, 0 if there is none. It is
      not tracked, and syncing starts after it. */
  datatype State = State(
    chain: Chain, finalized: nat,
    floor: nat, rows: seq<Evm>, halted: bool,
    tracked: map<nat, Hash>, phase: Phase,
    queue: seq<Evm>, next: nat, running: bool, hand: Option<Evm>)

  datatype Event =
    | ChainMoves(chain: Chain, finalized: nat)
    | Download(to: nat)
    | Track
    | Process
    | ProcessFails
    | ReadClosed
    | Scan(hdrs: seq<Header>)
    | HandleReorg
    | Remove

  predicate Below(rows: seq<Evm>, n: nat) {
    forall k: nat {:trigger rows[k]} :: k < |rows| ==> rows[k].num < n
  }

  function NumOf(b: Evm): nat {
    b.num
  }

  function Cut(rows: seq<Evm>, n: nat): (r: seq<Evm>) {
    B.Keep(rows, NumOf, n)
  }

  /** GetLastProcessedBlock. */
  function LastProcessed(s: State): nat {
    LastOf(s.floor, s.rows)
  }

  ghost predicate Enabled(s: State, e: Event) {
    match e
    // the finalised prefix is never replaced
    case ChainMoves(c, f) =>
      s.finalized <= f < |c| && s.finalized < |s.chain| && c[..s.finalized + 1] == s.chain[..s.finalized + 1]
    // one chunk, read from one snapshot of the chain
    case Download(to) => s.running && s.next <= to < |s.chain|
    // the driver takes a block; no block is tracked between ReorgProcessed and removeRange
    case Track => s.hand.None? && s.queue != [] && !s.phase.Removing?
    case Process => s.hand.Some? && !s.halted
    case ProcessFails => s.hand.Some?
    // a cancelled downloader closes its channel, and a closed channel yields zero blocks
    case ReadClosed => s.hand.None? && s.queue == [] && !s.running && !s.phase.Removing?
    case Scan(hdrs) => s.phase.Idle? && ListingOf(s.tracked, hdrs)
    case HandleReorg => s.phase.Notifying? && s.hand.None?
    case Remove => s.phase.Removing?
  }

  ghost function Apply(hash: HashOf, topics: set<nat>, s: State, e: Event): State
    requires Enabled(s, e)
  {
    match e
    case ChainMoves(c, f) => s.(chain := c, finalized := f)
    case Download(to) =>
      s.(queue := s.queue + Chunk(hash, topics, s.chain, s.next, to), next := to + 1)
    case Track =>
      var b := s.queue[0];
      s.(tracked := s.tracked[b.num := b.hash], hand := Some(b), queue := s.queue[1..])
    case Process => s.(rows := s.rows + [s.hand.value], hand := None)
    case ProcessFails => s.(halted := true, running := false, hand := None)
    case ReadClosed => s.(tracked := s.tracked[0 := 0], hand := Some(Evm(0, 0, [])))
    case Scan(hdrs) =>
      var (pruned, outcome) := Pass(hash, s.chain, s.finalized, hdrs);
      s.(tracked := s.tracked - pruned,
         phase := if outcome.Mismatch?
                  then Notifying(outcome.num, hdrs[|hdrs| - 1].num, s.chain, LastOf(s.floor, Taken(s))) else Idle)
    // the block put in by hand is a row like the others; without it the sync starts over at block 1
    case HandleReorg =>
      var floor, rows := if s.phase.first <= s.floor then 0 else s.floor, Cut(s.rows, s.phase.first);
      s.(floor := floor, rows := rows, halted := s.halted && floor == s.floor && |rows| == |s.rows|,
         queue := [], next := LastOf(floor, rows) + 1, running := true, phase := Removing(s.phase.first, s.phase.last))
    case Remove => s.(tracked := Without(s.tracked, s.phase.first, s.phase.last), phase := Idle)
  }

  // ----- the invariant -----

  /** Some chain, ending in this very block, has the block's logs there and no matching log since `prev`. */
  ghost predicate ExplainedBy(hash: HashOf, topics: set<nat>, prev: nat, b: Evm, p: Chain) {
    && |p| == b.num + 1 && prev < b.num && hash(p) == b.hash && Matching(topics, p[b.num]) == b.events
    && (forall n: nat {:trigger p[n]} :: prev < n < b.num ==> Matching(topics, p[n]) == [])
  }

  ghost predicate Explained(hash: HashOf, topics: set<nat>, prev: nat, b: Evm) {
    exists p :: ExplainedBy(hash, topics, prev, b, p)
  }

  function Prev(prev: nat, bs: seq<Evm>, k: nat): nat
    requires k <= |bs|
  {
    if k == 0 then prev else bs[k - 1].num
  }

  ghost predicate Link(hash: HashOf, topics: set<nat>, prev: nat, bs: seq<Evm>, k: nat)
    requires k < |bs|
  {
    Explained(hash, topics, Prev(prev, bs, k), bs[k])
  }

  ghost predicate Linked(hash: HashOf, topics: set<nat>, prev: nat, bs: seq<Evm>) {
    forall k: nat {:trigger Link(hash, topics, prev, bs, k)} :: k < |bs| ==> Link(hash, topics, prev, bs, k)
  }

  /** The block is on this chain. */
  ghost predicate On(hash: HashOf, c: Chain, b: Evm) {
    b.num < |c| && b.hash == hash(c[..b.num + 1])
  }

  /** A block that a reorg would be noticed for, or that no reorg can reach. */
  ghost predicate Watched(hash: HashOf, s: State, b: Evm) {
    || (b.num in s.tracked && s.tracked[b.num] == b.hash)
    || (b.num <= s.finalized && On(hash, s.chain, b))
  }

  /** The blocks that the driver has tracked: those processed, and the one in hand if it can be processed. */
  function Taken(s: State): seq<Evm> {
    if s.hand.Some? && !s.halted then s.rows + [s.hand.value] else s.rows
  }

  /** The blocks below `first` and not above `upTo` are on c. */
  ghost predicate Seen(hash: HashOf, c: Chain, bs: seq<Evm>, first: nat, upTo: nat) {
    forall k: nat {:trigger bs[k]} :: k < |bs| && bs[k].num < first && bs[k].num <= upTo ==> On(hash, c, bs[k])
  }

  function Pending(s: State): seq<Evm> {
    (if s.hand.Some? then [s.hand.value] else []) + s.queue
  }

  ghost predicate AllWatched(hash: HashOf, s: State, bs: seq<Evm>) {
    forall k: nat {:trigger bs[k]} :: k < |bs| ==> Watched(hash, s, bs[k])
  }

  /** The blocks come after block n, but for a zero block. */
  ghost predicate Ahead(bs: seq<Evm>, n: nat) {
    forall k: nat {:trigger bs[k]} :: k < |bs| ==> bs[k].num == 0 || bs[k].num > n
  }

  ghost predicate Inv(hash: HashOf, topics: set<nat>, s: State) {
    && s.finalized < |s.chain|
    && Linked(hash, topics, s.floor, s.rows)
    && AllWatched(hash, s, Taken(s))
    && Ahead(Pending(s), LastProcessed(s))
    && (!s.halted ==> Linked(hash, topics, LastProcessed(s), Pending(s)))
    && (!s.halted ==> s.next == LastOf(LastProcessed(s), Pending(s)) + 1)
    && s.next > LastProcessed(s)
    && (!s.running ==> s.halted)
    && (s.phase.Removing? ==> Below(s.rows, s.phase.first) && s.hand.None?)
    && (s.phase.Notifying? ==>
          && s.phase.seen != []
          && (!s.halted ==> s.phase.upTo <= LastOf(s.floor, Taken(s)))
          && Seen(hash, s.phase.seen, Taken(s), s.phase.first, s.phase.upTo))
  }

  // ----- the downloader explains what it sends -----

  lemma {:induction false} WithEventsLinked(hash: HashOf, topics: set<nat>, c: Chain, from: nat, end: nat)
    requires 1 <= from <= end <= |c|
    ensures Linked(hash, topics, from - 1, WithEvents(hash, topics, c, from, end))
    ensures QuietAfter(topics, c, WithEvents(hash, topics, c, from, end), from - 1, end)
    decreases end
  {
    if from < end {
      WithEventsLinked(hash, topics, c, from, end - 1);
      var before := WithEvents(hash, topics, c, from, end - 1);
      var logs := Matching(topics, c[end - 1]);
      if logs != [] {
        var b := Evm(end - 1, hash(c[..end]), logs);
        assert ExplainedBy(hash, topics, Prev(from - 1, before, |before|), b, c[..end]);
        LinkedPush(hash, topics, from - 1, before, b);
      }
    }
  }

  /** After the last of these blocks, and before `end`, the chain has no matching log. */
  ghost predicate QuietAfter(topics: set<nat>, c: Chain, bs: seq<Evm>, prev: nat, end: nat)
    requires end <= |c|
  {
    && prev <= Prev(prev, bs, |bs|) < end
    && (forall n: nat {:trigger c[n]} :: Prev(prev, bs, |bs|) < n < end ==> Matching(topics, c[n]) == [])
  }

  lemma LinkedPush(hash: HashOf, topics: set<nat>, prev: nat, bs: seq<Evm>, b: Evm)
    requires Linked(hash, topics, prev, bs) && Explained(hash, topics, Prev(prev, bs, |bs|), b)
    ensures Linked(hash, topics, prev, bs + [b])
  {
    hide Explained;
    forall k: nat | k < |bs| + 1
      ensures Link(hash, topics, prev, bs + [b], k)
    {
      if k < |bs| {
        assert Link(hash, topics, prev, bs, k);
      }
    }
  }

  lemma LinkedJoin(hash: HashOf, topics: set<nat>, prev: nat, bs: seq<Evm>, cs: seq<Evm>)
    requires Linked(hash, topics, prev, bs) && Linked(hash, topics, Prev(prev, bs, |bs|), cs)
    ensures Linked(hash, topics, prev, bs + cs)
  {
    hide Explained;
    forall k: nat | k < |bs + cs|
      ensures Link(hash, topics, prev, bs + cs, k)
    {
      if k < |bs| {
        assert Link(hash, topics, prev, bs, k);
      } else {
        assert Link(hash, topics, Prev(prev, bs, |bs|), cs, k - |bs|);
      }
    }
  }

  /** Linked blocks split into linked blocks, in both directions. */
  lemma LinkedSplit(hash: HashOf, topics: set<nat>, prev: nat, bs: seq<Evm>, n: nat)
    requires Linked(hash, topics, prev, bs) && n <= |bs|
    ensures Linked(hash, topics, prev, bs[..n]) && Linked(hash, topics, Prev(prev, bs, n), bs[n..])
  {
    hide Explained;
    forall k: nat | k < n
      ensures Link(hash, topics, prev, bs[..n], k)
    {
      assert Link(hash, topics, prev, bs, k);
    }
    forall k: nat | k < |bs| - n
      ensures Link(hash, topics, Prev(prev, bs, n), bs[n..], k)
    {
      assert Link(hash, topics, prev, bs, n + k);
    }
  }

  lemma LinkedGrows(hash: HashOf, topics: set<nat>, prev: nat, bs: seq<Evm>, k: nat)
    requires Linked(hash, topics, prev, bs) && k < |bs|
    ensures Prev(prev, bs, k) < bs[k].num
  {
    assert Link(hash, topics, prev, bs, k);
  }

  /** Within linked blocks the numbers strictly grow. */
  lemma {:induction false} LinkedAscends(hash: HashOf, topics: set<nat>, prev: nat, bs: seq<Evm>, j: nat, k: nat)
    requires Linked(hash, topics, prev, bs) && j <= k < |bs|
    ensures prev < bs[j].num <= bs[k].num && (j < k ==> bs[j].num < bs[k].num)
    decreases k
  {
    LinkedGrows(hash, topics, prev, bs, k);
    if k > 0 {
      LinkedAscends(hash, topics, prev, bs, if j < k then j else 0, k - 1);
    }
  }

  /** A chunk carries on from the block before it, ends at `to`, and hides no matching log. */
  lemma ChunkLinked(hash: HashOf, topics: set<nat>, c: Chain, from: nat, to: nat)
    requires 1 <= from <= to < |c|
    ensures var bs := Chunk(hash, topics, c, from, to);
            Linked(hash, topics, from - 1, bs) && bs != [] && LastOf(from - 1, bs) == to
  {
    WithEventsLinked(hash, topics, c, from, to + 1);
    var blocks := WithEvents(hash, topics, c, from, to + 1);
    if blocks == [] || blocks[|blocks| - 1].num < to {
      var b := Evm(to, hash(c[..to + 1]), []);
      assert ExplainedBy(hash, topics, Prev(from - 1, blocks, |blocks|), b, c[..to + 1]);
      LinkedPush(hash, topics, from - 1, blocks, b);
    }
  }

  // ----- linked blocks that are on a chain hold exactly its logs -----

  lemma {:induction false} QuietStretch(topics: set<nat>, c: Chain, floor: nat, a: nat, b: nat)
    requires floor <= a <= b < |c|
    requires forall n: nat {:trigger c[n]} :: a < n <= b ==> Matching(topics, c[n]) == []
    ensures Canonical(topics, c, floor, b) == Canonical(topics, c, floor, a)
    decreases b
  {
    if a < b {
      QuietStretch(topics, c, floor, a, b - 1);
      assert Matching(topics, c[b]) == [];
    }
  }

  /** The blocks hold exactly the matching logs of c after block `floor`, up to the last of them, in order. */
  ghost predicate Exact(topics: set<nat>, c: Chain, floor: nat, rows: seq<Evm>) {
    && (rows != [] ==> floor < LastOf(floor, rows) < |c|)
    && Held(rows) == Canonical(topics, c, floor, LastOf(floor, rows))
  }

  /** Linked blocks that are all on c hold exactly the matching logs of c. */
  lemma {:induction false} OnChainIsExact(hash: HashOf, topics: set<nat>, c: Chain, floor: nat, rows: seq<Evm>)
    requires Binding(hash) && Linked(hash, topics, floor, rows)
    requires forall k: nat {:trigger rows[k]} :: k < |rows| ==> On(hash, c, rows[k])
    ensures Exact(topics, c, floor, rows)
    decreases |rows|
  {
    hide Linked, On, Explained, Binding, Matching, Canonical, Held, Tagged;
    if rows == [] {
      NothingHeld(topics, c, floor, rows);
    } else {
      var n := |rows| - 1;
      var front, b, prev := rows[..n], rows[n], Prev(floor, rows, n);
      LinkedSplit(hash, topics, floor, rows, n);
      forall k: nat {:trigger front[k]} | k < |front|
        ensures On(hash, c, front[k])
      {
        assert front[k] == rows[k];
      }
      OnChainIsExact(hash, topics, c, floor, front);
      LinkedLast(hash, topics, floor, rows);
      ExplainedOnChain(hash, topics, prev, b, c);
      QuietStretch(topics, c, floor, prev, b.num - 1);
      HeldStep(rows);
      CanonicalStep(topics, c, floor, b.num);
    }
  }

  lemma NothingHeld(topics: set<nat>, c: Chain, floor: nat, rows: seq<Evm>)
    requires rows == []
    ensures Held(rows) == Canonical(topics, c, floor, floor) == []
  {}

  lemma HeldStep(rows: seq<Evm>)
    requires rows != []
    ensures var n := |rows| - 1; Held(rows) == Held(rows[..n]) + Tagged(rows[n].num, rows[n].events)
  {}

  lemma CanonicalStep(topics: set<nat>, c: Chain, floor: nat, n: nat)
    requires floor < n < |c|
    ensures Canonical(topics, c, floor, n) == Canonical(topics, c, floor, n - 1) + Tagged(n, Matching(topics, c[n]))
  {}

  lemma LinkedLast(hash: HashOf, topics: set<nat>, prev: nat, bs: seq<Evm>)
    requires Linked(hash, topics, prev, bs) && bs != []
    ensures Explained(hash, topics, Prev(prev, bs, |bs| - 1), bs[|bs| - 1])
  {
    assert Link(hash, topics, prev, bs, |bs| - 1);
  }

  /** A block that is on c has the logs of c, and c has no matching log between the block before and it. */
  lemma ExplainedOnChain(hash: HashOf, topics: set<nat>, prev: nat, b: Evm, c: Chain)
    requires Binding(hash) && Explained(hash, topics, prev, b) && On(hash, c, b)
    ensures prev < b.num < |c| && Matching(topics, c[b.num]) == b.events
    ensures forall m: nat {:trigger c[m]} :: prev < m <= b.num - 1 ==> Matching(topics, c[m]) == []
  {}

  // ----- what a detection pass establishes -----

  ghost predicate Ascending(hdrs: seq<Header>) {
    forall i, j :: 0 <= i < j < |hdrs| ==> hdrs[i].num < hdrs[j].num
  }

  /** The header is on this chain. */
  ghost predicate Agrees(hash: HashOf, c: Chain, h: Header) {
    h.num < |c| && h.hash == hash(c[..h.num + 1])
  }

  /**
   What a pass answers: it stops at header k, the first that is not on the chain, and untracks exactly the finalised
   headers before it.
   */
  lemma {:induction false} PassIs(hash: HashOf, c: Chain, f: nat, hdrs: seq<Header>) returns (k: nat)
    ensures k <= |hdrs| && (forall i: nat {:trigger hdrs[i]} :: i < k ==> Agrees(hash, c, hdrs[i]))
    ensures k < |hdrs| ==> !Agrees(hash, c, hdrs[k])
    ensures Pass(hash, c, f, hdrs).1
            == if k == |hdrs| then Clean else if hdrs[k].num >= |c| then Failed else Mismatch(hdrs[k].num)
    ensures forall n: nat :: n in Pass(hash, c, f, hdrs).0 <==>
              n <= f && exists i: nat {:trigger hdrs[i]} :: i < k && hdrs[i].num == n
    decreases |hdrs|
  {
    k := 0;
    if hdrs != [] && Agrees(hash, c, hdrs[0]) {
      k := PassIs(hash, c, f, hdrs[1..]);
      k := k + 1;
      forall n: nat
        ensures n in Pass(hash, c, f, hdrs).0 <==>
                  n <= f && exists i: nat {:trigger hdrs[i]} :: i < k && hdrs[i].num == n
      {
        if i: nat :| i < k && hdrs[i].num == n {
          assert i > 0 ==> hdrs[1..][i - 1] == hdrs[i];
        }
      }
    }
  }

  /** Every header before the first mismatch is on the chain. */
  lemma PassMatched(hash: HashOf, c: Chain, f: nat, hdrs: seq<Header>, i: nat)
    requires Ascending(hdrs) && i < |hdrs|
    requires var o := Pass(hash, c, f, hdrs).1; o.Clean? || (o.Mismatch? && hdrs[i].num < o.num)
    ensures Agrees(hash, c, hdrs[i])
  {
    hide Pass;
    var k := PassIs(hash, c, f, hdrs);
  }

  lemma ScanKeepsWatched(hash: HashOf, s: State, hdrs: seq<Header>, b: Evm)
    requires ListingOf(s.tracked, hdrs) && s.finalized < |s.chain| && Watched(hash, s, b)
    ensures Watched(hash, s.(tracked := s.tracked - Pass(hash, s.chain, s.finalized, hdrs).0), b)
  {
    hide Pass;
    var k := PassIs(hash, s.chain, s.finalized, hdrs);
    if b.num in Pass(hash, s.chain, s.finalized, hdrs).0 {
      var i: nat :| i < k && hdrs[i].num == b.num;
    }
  }

  /** A watched block that the pass did not object to is on the chain the pass read. */
  lemma WatchedMatched(hash: HashOf, s: State, hdrs: seq<Header>, b: Evm)
    requires ListingOf(s.tracked, hdrs) && Watched(hash, s, b)
    requires var o := Pass(hash, s.chain, s.finalized, hdrs).1; o.Clean? || (o.Mismatch? && b.num < o.num)
    ensures On(hash, s.chain, b)
  {
    hide Pass;
    if b.num in s.tracked && s.tracked[b.num] == b.hash {
      assert Header(b.num, b.hash) in hdrs;
      var i: nat :| i < |hdrs| && hdrs[i] == Header(b.num, b.hash);
      assert Ascending(hdrs);
      PassMatched(hash, s.chain, s.finalized, hdrs, i);
    }
  }
}
