/**
 The epoch clock of the certificate sender: a step per block notification that fires at most once per epoch.
 Percentages are exact here where the program uses floating point.
 */
module EpochNotifier {
  import opened Wrappers

  /** First block of epoch 1, blocks per epoch, and how far into an epoch, in percent, it is notified. */
  datatype Config = Config(start: nat, size: nat, percentage: nat)

  /** Validate accepts exactly these. */
  predicate Valid(c: Config) {
    c.size > 0 && c.percentage < 100
  }

  datatype Status = Status(lastBlockSeen: nat, waitingForEpoch: nat)

  datatype EpochEvent = EpochEvent(epoch: nat, pendingBlocks: int)

  // ----- the arithmetic of epochs -----

  function EpochNumber(c: Config, block: nat): nat
    requires Valid(c)
  {
    if block < c.start then 0 else 1 + (block - c.start) / c.size
  }

  function StartingBlock(c: Config, epoch: nat): int {
    if epoch == 0 then c.start - 1 else c.start + (epoch - 1) * c.size
  }

  function EndBlock(c: Config, epoch: nat): int {
    StartingBlock(c, epoch + 1)
  }

  function Percent(c: Config, block: nat): real
    requires Valid(c)
  {
    (block - StartingBlock(c, EpochNumber(c, block))) as real / c.size as real
  }

  /** The configured percentage, capped so that the last block of an epoch always reaches it. */
  function Threshold(c: Config): real
    requires Valid(c)
  {
    var t, most := c.percentage as real / 100.0, (c.size - 1) as real / c.size as real;
    if t > most then most else t
  }

  predicate Past(c: Config, block: nat)
    requires Valid(c)
  {
    Percent(c, block) >= Threshold(c)
  }

  /** An epoch number is right when the block lies between its first block and that of the next. */
  lemma EpochIff(c: Config, block: nat, epoch: nat)
    requires Valid(c) && epoch > 0
    ensures EpochNumber(c, block) == epoch <==> StartingBlock(c, epoch) <= block < EndBlock(c, epoch)
  {
    if block >= c.start {
      QuotientIff(block - c.start, c.size, epoch - 1);
      assert epoch * c.size == (epoch - 1) * c.size + c.size;
    } else {
      Scaled(c.size, 0, epoch - 1);
    }
  }

  lemma QuotientIff(d: nat, n: nat, e: nat)
    requires n > 0
    ensures d / n == e <==> e * n <= d < e * n + n
  {
    var q := d / n;
    assert q * n <= d < q * n + n;
    if q < e {
      Scaled(n, q + 1, e);
    } else if e < q {
      Scaled(n, e + 1, q);
    }
  }

  lemma Scaled(n: nat, a: nat, b: nat)
    requires a <= b
    ensures a * n <= b * n
  {}

  lemma EpochsRise(c: Config, a: nat, b: nat)
    requires Valid(c) && c.start <= a <= b
    ensures 1 <= EpochNumber(c, a) <= EpochNumber(c, b)
  {
    var e, f := EpochNumber(c, a), EpochNumber(c, b);
    EpochIff(c, a, e);
    EpochIff(c, b, f);
    if f < e {
      Scaled(c.size, f, e - 1);
    }
  }

  /** The threshold in whole numbers: the percentage of the epoch has gone by, or this is its last block. */
  lemma PastIff(c: Config, block: nat)
    requires Valid(c) && block >= c.start
    ensures var elapsed := block - StartingBlock(c, EpochNumber(c, block));
            0 <= elapsed < c.size
              && (Past(c, block) <==> c.percentage * c.size <= elapsed * 100 || elapsed == c.size - 1)
  {
    hide EpochNumber;
    EpochsRise(c, block, block);
    EpochIff(c, block, EpochNumber(c, block));
    var elapsed := block - StartingBlock(c, EpochNumber(c, block));
    Ratios(elapsed, c.size, c.percentage, 100);
    Ratios(elapsed, c.size, c.size - 1, c.size);
    Scaled(c.size, elapsed, c.size - 1);
    if elapsed < c.size - 1 {
      Scaled(c.size, elapsed + 1, c.size - 1);
    }
  }

  lemma Ratios(a: nat, n: nat, b: nat, m: nat)
    requires n > 0 && m > 0
    ensures a as real / n as real >= b as real / m as real <==> a * m >= b * n
  {}

  // ----- the step -----

  function IsNotificationRequired(c: Config, block: nat, waiting: nat): (bool, nat)
    requires Valid(c)
  {
    (Past(c, block) && EpochNumber(c, block) + 1 > waiting, EpochNumber(c, block))
  }

  function Step(c: Config, s: Status, block: nat): (Status, Option<EpochEvent>)
    requires Valid(c)
  {
    if block < c.start || block <= s.lastBlockSeen then (s, None)
    else
      var (needed, closing) := IsNotificationRequired(c, block, s.waitingForEpoch);
      if needed then (Status(block, closing + 1), Some(EpochEvent(closing, EndBlock(c, closing) - block)))
      else (Status(block, s.waitingForEpoch), None)
  }

  // ----- what a run of notifications has to publish -----

  /** Notification i brings a block higher than the first one and than all before it. */
  ghost predicate NewHighest(c: Config, blocks: seq<nat>, i: nat)
    requires i < |blocks|
  {
    c.start < blocks[i] && forall j: nat {:trigger blocks[j]} :: j < i ==> blocks[j] < blocks[i]
  }

  ghost predicate Signals(c: Config, blocks: seq<nat>, i: nat)
    requires Valid(c) && i < |blocks|
  {
    NewHighest(c, blocks, i) && Past(c, blocks[i])
  }

  ghost predicate SignalledBefore(c: Config, blocks: seq<nat>, i: nat, epoch: nat)
    requires Valid(c) && i <= |blocks|
  {
    exists j: nat {:trigger Signals(c, blocks, j)} :: j < i && Signals(c, blocks, j)
      && EpochNumber(c, blocks[j]) == epoch
  }

  /** The first new-highest block past the threshold of its epoch, whatever came before it. */
  ghost predicate Fires(c: Config, blocks: seq<nat>, i: nat)
    requires Valid(c) && i < |blocks|
  {
    Signals(c, blocks, i) && !SignalledBefore(c, blocks, i, EpochNumber(c, blocks[i]))
  }

  ghost predicate Right(c: Config, blocks: seq<nat>, i: nat, e: Option<EpochEvent>)
    requires Valid(c) && i < |blocks|
  {
    && (e.Some? <==> Fires(c, blocks, i))
    && (e.Some? ==> e.value.epoch == EpochNumber(c, blocks[i]) && 1 <= e.value.pendingBlocks <= c.size
                    && blocks[i] + e.value.pendingBlocks == EndBlock(c, e.value.epoch))
  }

  ghost predicate AllRight(c: Config, blocks: seq<nat>, published: seq<Option<EpochEvent>>)
    requires Valid(c)
  {
    |published| == |blocks| && forall i: nat {:trigger published[i]} :: i < |blocks| ==>
      Right(c, blocks, i, published[i])
  }

  /** What the status remembers of the notifications so far. */
  ghost predicate Remembers(c: Config, blocks: seq<nat>, i: nat, s: Status)
    requires Valid(c) && i <= |blocks|
  {
    && c.start <= s.lastBlockSeen
    && (forall j: nat {:trigger blocks[j]} :: j < i ==> blocks[j] <= s.lastBlockSeen)
    && (s.lastBlockSeen == c.start || exists j: nat {:trigger blocks[j]} :: j < i && blocks[j] == s.lastBlockSeen)
    && 1 <= s.waitingForEpoch
    && (forall j: nat {:trigger Signals(c, blocks, j)} :: j < i && Signals(c, blocks, j) ==>
          EpochNumber(c, blocks[j]) < s.waitingForEpoch)
    && (s.waitingForEpoch == 1 || SignalledBefore(c, blocks, i, s.waitingForEpoch - 1))
  }

  lemma NewHighestIff(c: Config, blocks: seq<nat>, i: nat, s: Status)
    requires Valid(c) && i < |blocks| && Remembers(c, blocks, i, s)
    ensures NewHighest(c, blocks, i) <==> s.lastBlockSeen < blocks[i]
  {}

  /** A new highest block past its threshold fires exactly when its epoch is still waited for. */
  lemma WaitedForIff(c: Config, blocks: seq<nat>, i: nat, s: Status)
    requires Valid(c) && i < |blocks| && Remembers(c, blocks, i, s) && NewHighest(c, blocks, i)
    ensures SignalledBefore(c, blocks, i, EpochNumber(c, blocks[i])) <==> EpochNumber(c, blocks[i]) < s.waitingForEpoch
    ensures 1 <= EpochNumber(c, blocks[i])
  {
    hide EpochNumber, Past;
    var epoch := EpochNumber(c, blocks[i]);
    EpochsRise(c, blocks[i], blocks[i]);
    if epoch < s.waitingForEpoch {
      var j: nat :| j < i && Signals(c, blocks, j) && EpochNumber(c, blocks[j]) == s.waitingForEpoch - 1;
      EpochsRise(c, blocks[j], blocks[i]);
    }
  }

  lemma StepRight(c: Config, blocks: seq<nat>, i: nat, s: Status)
    requires Valid(c) && i < |blocks| && Remembers(c, blocks, i, s)
    ensures var (t, e) := Step(c, s, blocks[i]);
            Right(c, blocks, i, e) && Remembers(c, blocks, i + 1, t)
  {
    hide EpochNumber, Past, NewHighest;
    NewHighestIff(c, blocks, i, s);
    if s.lastBlockSeen < blocks[i] {
      WaitedForIff(c, blocks, i, s);
      var epoch := EpochNumber(c, blocks[i]);
      EpochIff(c, blocks[i], epoch);
      if Past(c, blocks[i]) {
        assert Signals(c, blocks, i);
      }
    }
  }

  /** The loop of the notifier, over the notifications it receives. */
  method Start(c: Config, blocks: seq<nat>) returns (published: seq<Option<EpochEvent>>)
    requires Valid(c)
    ensures AllRight(c, blocks, published)
  {
    hide Right, Remembers, Step;
    var status := Status(c.start, EpochNumber(c, c.start));
    published := [];
    FirstStatus(c, blocks);
    for k := 0 to |blocks|
      invariant |published| == k && Remembers(c, blocks, k, status)
      invariant forall i: nat {:trigger published[i]} :: i < k ==> Right(c, blocks, i, published[i])
    {
      StepRight(c, blocks, k, status);
      var (next, event) := Step(c, status, blocks[k]);
      status, published := next, published + [event];
    }
  }

  lemma FirstStatus(c: Config, blocks: seq<nat>)
    requires Valid(c)
    ensures Remembers(c, blocks, 0, Status(c.start, EpochNumber(c, c.start)))
  {}

  // ----- what follows for every run -----

  /** Epochs are published in strictly increasing order, whatever order the blocks come in. */
  lemma EpochsIncrease(c: Config, blocks: seq<nat>, published: seq<Option<EpochEvent>>, i: nat, j: nat)
    requires Valid(c) && AllRight(c, blocks, published) && i < j < |blocks| && published[i].Some? && published[j].Some?
    ensures published[i].value.epoch < published[j].value.epoch
  {
    hide EpochNumber, Past;
    assert Right(c, blocks, i, published[i]) && Right(c, blocks, j, published[j]);
    EpochsRise(c, blocks[i], blocks[j]);
    assert Signals(c, blocks, i);
  }

  /** All blocks after the first one, in order. */
  function InOrder(c: Config, count: nat): (r: seq<nat>)
    ensures |r| == count && forall i: nat {:trigger r[i]} :: i < count ==> r[i] == c.start + 1 + i
  {
    if count == 0 then [] else InOrder(c, count - 1) + [c.start + count]
  }

  lemma LastBlockIsPast(c: Config, epoch: nat)
    requires Valid(c) && epoch > 0
    ensures EndBlock(c, epoch) - 1 >= c.start
    ensures EpochNumber(c, EndBlock(c, epoch) - 1) == epoch && Past(c, EndBlock(c, epoch) - 1)
  {
    Scaled(c.size, 1, epoch);
    var last := EndBlock(c, epoch) - 1;
    EpochIff(c, last, epoch);
    PastIff(c, last);
  }

  ghost predicate Published(published: seq<Option<EpochEvent>>, epoch: nat) {
    exists i: nat {:trigger published[i]} ::
      i < |published| && published[i].Some? && published[i].value.epoch == epoch
  }

  /**
   When all blocks after the first arrive in order, an epoch whose last block has arrived is published exactly
   once; only the first epoch, when an epoch is a single block, never is: its one block is the starting block.
   */
  lemma EveryEpochOnce(c: Config, count: nat, published: seq<Option<EpochEvent>>, epoch: nat)
    requires Valid(c) && AllRight(c, InOrder(c, count), published)
    requires epoch > 0 && EndBlock(c, epoch) - 1 <= c.start + count
    ensures Published(published, epoch) <==> epoch > 1 || c.size > 1
    ensures forall i: nat, j: nat {:trigger published[i], published[j]} ::
              i < j < count && published[i].Some? && published[j].Some? ==>
                published[i].value.epoch != published[j].value.epoch
  {
    hide EpochNumber, Past, StartingBlock;
    var blocks := InOrder(c, count);
    forall i: nat, j: nat {:trigger published[i], published[j]}
      | i < j < count && published[i].Some? && published[j].Some?
      ensures published[i].value.epoch != published[j].value.epoch
    {
      EpochsIncrease(c, blocks, published, i, j);
    }
    LastBlockIsPast(c, epoch);
    if epoch > 1 || c.size > 1 {
      LastBlockIsNew(c, epoch);
      var i := FirstSignal(c, blocks, epoch, EndBlock(c, epoch) - 1 - c.start - 1);
      assert Right(c, blocks, i, published[i]);
    } else {
      forall i: nat {:trigger published[i]} | i < count && published[i].Some?
        ensures published[i].value.epoch != 1
      {
        assert Right(c, blocks, i, published[i]);
        SingleBlock(c, blocks[i]);
      }
    }
  }

  lemma LastBlockIsNew(c: Config, epoch: nat)
    requires Valid(c) && epoch > 0 && (epoch > 1 || c.size > 1)
    ensures EndBlock(c, epoch) - 1 > c.start
  {}

  lemma SingleBlock(c: Config, block: nat)
    requires Valid(c) && c.size == 1 && block > c.start
    ensures EpochNumber(c, block) > 1
  {
    EpochIff(c, block, 1);
    EpochsRise(c, block, block);
  }

  /** The first notification that signals an epoch, at or before one that does. */
  lemma {:induction false} FirstSignal(c: Config, blocks: seq<nat>, epoch: nat, k: nat) returns (i: nat)
    requires Valid(c) && k < |blocks| && Signals(c, blocks, k) && EpochNumber(c, blocks[k]) == epoch
    ensures i <= k && Fires(c, blocks, i) && EpochNumber(c, blocks[i]) == epoch
    decreases k
  {
    hide EpochNumber, Past, NewHighest;
    if SignalledBefore(c, blocks, k, epoch) {
      var j: nat :| j < k && Signals(c, blocks, j) && EpochNumber(c, blocks[j]) == epoch;
      i := FirstSignal(c, blocks, epoch, j);
    } else {
      i := k;
    }
  }
}
