/**
 The downloader's loops: filtering the client's logs by topic and grouping them into blocks.
 */
module Downloader {
  import opened ChainSync
  import opened Wrappers

  ghost function Topics(topicsToQuery: seq<nat>): set<nat> {
    set t | t in topicsToQuery
  }

  /** A log as the client returns it. */
  datatype RawLog = RawLog(num: nat, hash: Hash, log: Log)

  function Stamped(num: nat, hash: Hash, logs: Block): seq<RawLog> {
    if logs == [] then [] else Stamped(num, hash, logs[..|logs| - 1]) + [RawLog(num, hash, logs[|logs| - 1])]
  }

  /** FilterLogs on one snapshot of the chain: every log of the range, block after block. */
  function Raw(hash: HashOf, c: Chain, from: nat, end: nat): seq<RawLog>
    requires from <= end <= |c|
    decreases end
  {
    if end == from then [] else Raw(hash, c, from, end - 1) + Stamped(end - 1, hash(c[..end]), c[end - 1])
  }

  function Filtered(topics: set<nat>, logs: seq<RawLog>): seq<RawLog> {
    if logs == [] then []
    else
      var front, last := Filtered(topics, logs[..|logs| - 1]), logs[|logs| - 1];
      if last.log.topic in topics then front + [last] else front
  }

  /** One turn of the grouping loop. */
  function Grouped(blocks: seq<Evm>, l: RawLog): seq<Evm> {
    if blocks == [] || blocks[|blocks| - 1].num < l.num then blocks + [Evm(l.num, l.hash, [l.log])]
    else
      var last := blocks[|blocks| - 1];
      blocks[..|blocks| - 1] + [last.(events := last.events + [l.log])]
  }

  function Group(logs: seq<RawLog>): seq<Evm> {
    if logs == [] then [] else Grouped(Group(logs[..|logs| - 1]), logs[|logs| - 1])
  }

  // ----- grouping the filtered logs of a range gives its blocks with events -----

  lemma {:induction false} FilteredJoin(topics: set<nat>, a: seq<RawLog>, b: seq<RawLog>)
    ensures Filtered(topics, a + b) == Filtered(topics, a) + Filtered(topics, b)
    decreases |b|
  {
    if b == [] {
      assert a + b == a;
    } else {
      FilteredJoin(topics, a, b[..|b| - 1]);
      assert (a + b)[..|a + b| - 1] == a + b[..|b| - 1];
    }
  }

  lemma {:induction false} FilteredStamped(topics: set<nat>, num: nat, hash: Hash, logs: Block)
    ensures Filtered(topics, Stamped(num, hash, logs)) == Stamped(num, hash, Matching(topics, logs))
    decreases |logs|
  {
    if logs != [] {
      var front, last := logs[..|logs| - 1], logs[|logs| - 1];
      FilteredStamped(topics, num, hash, front);
      var stamped := Stamped(num, hash, logs);
      assert stamped[..|stamped| - 1] == Stamped(num, hash, front);
      if last.topic in topics {
        var m := Matching(topics, logs);
        assert m[..|m| - 1] == Matching(topics, front);
      }
    }
  }

  lemma GroupPush(logs: seq<RawLog>, l: RawLog)
    ensures Group(logs + [l]) == Grouped(Group(logs), l)
  {
    assert (logs + [l])[..|logs|] == logs;
  }

  lemma GroupedSame(blocks: seq<Evm>, num: nat, hash: Hash, events: Block, log: Log)
    requires events != []
    ensures Grouped(blocks + [Evm(num, hash, events)], RawLog(num, hash, log))
            == blocks + [Evm(num, hash, events + [log])]
  {
    assert (blocks + [Evm(num, hash, events)])[..|blocks|] == blocks;
  }

  /** Appending the logs of a later block appends one block, or nothing. */
  lemma {:induction false} GroupBlock(before: seq<RawLog>, num: nat, hash: Hash, logs: Block)
    requires Group(before) == [] || Group(before)[|Group(before)| - 1].num < num
    ensures Group(before + Stamped(num, hash, logs))
            == Group(before) + (if logs == [] then [] else [Evm(num, hash, logs)])
    decreases |logs|
  {
    hide Group;
    if logs == [] {
      assert before + Stamped(num, hash, logs) == before;
    } else {
      var front, last := logs[..|logs| - 1], logs[|logs| - 1];
      GroupBlock(before, num, hash, front);
      GroupPush(before + Stamped(num, hash, front), RawLog(num, hash, last));
      assert before + Stamped(num, hash, logs) == before + Stamped(num, hash, front) + [RawLog(num, hash, last)];
      if front == [] {
        assert logs == [last] && Group(before) + [] == Group(before);
      } else {
        assert front + [last] == logs;
        GroupedSame(Group(before), num, hash, front, last);
      }
    }
  }

  lemma NothingGrouped(topics: set<nat>)
    ensures Group(Filtered(topics, [])) == []
  {}

  lemma {:induction false} GroupedRange(hash: HashOf, topics: set<nat>, c: Chain, from: nat, end: nat)
    requires from <= end <= |c|
    ensures Group(Filtered(topics, Raw(hash, c, from, end))) == WithEvents(hash, topics, c, from, end)
    ensures var bs := WithEvents(hash, topics, c, from, end); bs == [] || bs[|bs| - 1].num < end
    decreases end
  {
    hide Group, Filtered, Matching, Stamped;
    if from == end {
      NothingGrouped(topics);
    } else {
      GroupedRange(hash, topics, c, from, end - 1);
      var before, n := Raw(hash, c, from, end - 1), end - 1;
      FilteredJoin(topics, before, Stamped(n, hash(c[..end]), c[n]));
      FilteredStamped(topics, n, hash(c[..end]), c[n]);
      GroupBlock(Filtered(topics, before), n, hash(c[..end]), Matching(topics, c[n]));
    }
  }

  // ----- the loops -----

  method GetLogs(unfilteredLogs: seq<RawLog>, topicsToQuery: seq<nat>) returns (logs: seq<RawLog>)
    ensures logs == Filtered(Topics(topicsToQuery), unfilteredLogs)
  {
    ghost var topics := Topics(topicsToQuery);
    logs := [];
    for i := 0 to |unfilteredLogs|
      invariant logs == Filtered(topics, unfilteredLogs[..i])
    {
      var l := unfilteredLogs[i];
      assert unfilteredLogs[..i + 1][..i] == unfilteredLogs[..i];
      var t := 0;
      while t < |topicsToQuery|
        invariant 0 <= t <= |topicsToQuery|
        invariant forall k :: 0 <= k < t ==> l.log.topic != topicsToQuery[k]
        invariant logs == Filtered(topics, unfilteredLogs[..i])
      {
        if l.log.topic == topicsToQuery[t] {
          break;
        }
        t := t + 1;
      }
      if t < |topicsToQuery| {
        logs := logs + [l];
      }
    }
    assert unfilteredLogs[..|unfilteredLogs|] == unfilteredLogs;
  }

  /** GetEventsByBlockRange on one snapshot: the blocks of the range that have matching logs. */
  method GetEventsByBlockRange(hash: HashOf, c: Chain, topicsToQuery: seq<nat>, from: nat, to: nat)
    returns (blocks: seq<Evm>)
    requires from <= to < |c|
    ensures blocks == WithEvents(hash, Topics(topicsToQuery), c, from, to + 1)
  {
    hide Raw, Filtered, WithEvents;
    ghost var topics := Topics(topicsToQuery);
    var logs := GetLogs(Raw(hash, c, from, to + 1), topicsToQuery);
    blocks := [];
    for i := 0 to |logs|
      invariant blocks == Group(logs[..i])
    {
      var l := logs[i];
      assert logs[..i + 1][..i] == logs[..i];
      if |blocks| == 0 || blocks[|blocks| - 1].num < l.num {
        blocks := blocks + [Evm(l.num, l.hash, [])];
      }
      var last := blocks[|blocks| - 1];
      assert [] + [l.log] == [l.log];
      blocks := blocks[|blocks| - 1 := last.(events := last.events + [l.log])];
      assert blocks == Grouped(Group(logs[..i]), l);
    }
    assert logs[..|logs|] == logs;
    GroupedRange(hash, topics, c, from, to + 1);
  }

  /** One turn of Download: the range is capped, and its last block is sent even without events. */
  method DownloadTurn(hash: HashOf, c: Chain, topicsToQuery: seq<nat>, fromBlock: nat, chunkSize: nat, lastBlock: nat)
    returns (sent: seq<Evm>, next: nat)
    requires lastBlock < |c|
    ensures fromBlock > lastBlock ==> sent == [] && next == fromBlock
    ensures fromBlock <= lastBlock ==>
              && next == (if fromBlock + chunkSize < lastBlock then fromBlock + chunkSize else lastBlock) + 1
              && sent == Chunk(hash, Topics(topicsToQuery), c, fromBlock, next - 1)
  {
    var toBlock := fromBlock + chunkSize;
    if toBlock > lastBlock {
      toBlock := lastBlock;
    }
    if fromBlock > toBlock {
      return [], fromBlock;
    }
    sent := GetEventsByBlockRange(hash, c, topicsToQuery, fromBlock, toBlock);
    if |sent| == 0 || sent[|sent| - 1].num < toBlock {
      sent := sent + [Evm(toBlock, hash(c[..toBlock + 1]), [])];
    }
    next := toBlock + 1;
  }
}
