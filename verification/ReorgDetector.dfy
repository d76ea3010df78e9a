/**
 The reorg detector's tracked headers of one subscriber, and the loop of a detection pass.
 */
module ReorgDetector {
  import opened ChainSync
  import opened Wrappers
  import B = BlockRows

  predicate Lower(a: Header, b: Header) {
    a.num < b.num
  }

  /** Sorted insertion of a header with a new number. */
  lemma {:induction false} InsertedSorted(hdrs: seq<Header>, h: Header)
    requires Ascending(hdrs) && forall x :: x in hdrs ==> x.num != h.num
    ensures Ascending(B.Insert(hdrs, h, Lower))
    ensures forall x :: x in B.Insert(hdrs, h, Lower) <==> x in hdrs || x == h
    decreases |hdrs|
  {
    hide B.Insert, Ascending;
    forall x
      ensures x in B.Insert(hdrs, h, Lower) <==> x in hdrs || x == h
    {
      B.InsertHas(hdrs, h, Lower, x);
    }
    B.InsertStep(hdrs, h, Lower);
    if hdrs == [] {
      AscendingPush(hdrs, h);
    } else {
      var front, last := hdrs[..|hdrs| - 1], hdrs[|hdrs| - 1];
      assert hdrs == front + [last] && last in hdrs;
      AscendingFront(hdrs);
      if last.num < h.num {
        AscendingPush(hdrs, h);
      } else {
        InsertedSorted(front, h);
        AscendingPush(B.Insert(front, h, Lower), last);
      }
    }
  }

  lemma AscendingFront(hdrs: seq<Header>)
    requires Ascending(hdrs) && hdrs != []
    ensures var n := |hdrs| - 1;
            Ascending(hdrs[..n]) && forall x :: x in hdrs[..n] ==> x.num < hdrs[n].num
  {}

  lemma AscendingPush(hdrs: seq<Header>, h: Header)
    requires Ascending(hdrs) && forall x :: x in hdrs ==> x.num < h.num
    ensures Ascending(hdrs + [h])
  {}

  /** What one turn of the pass adds to the outcome of the rest. */
  lemma PassTurn(hash: HashOf, c: Chain, f: nat, hdrs: seq<Header>, i: nat)
    requires i < |hdrs|
    ensures var h := hdrs[i];
            if h.num >= |c| then Pass(hash, c, f, hdrs[i..]) == ({}, Failed)
            else if h.hash != hash(c[..h.num + 1]) then Pass(hash, c, f, hdrs[i..]) == ({}, Mismatch(h.num))
            else && Pass(hash, c, f, hdrs[i..]).1 == Pass(hash, c, f, hdrs[i + 1..]).1
                 && Pass(hash, c, f, hdrs[i..]).0
                    == Pass(hash, c, f, hdrs[i + 1..]).0 + (if h.num <= f then {h.num} else {})
  {
    assert hdrs[i..][1..] == hdrs[i + 1..];
  }

  lemma PassEnds(hash: HashOf, c: Chain, f: nat)
    ensures Pass(hash, c, f, []) == ({}, Clean)
  {}

  lemma MinusOne(m: map<nat, Hash>, gone: set<nat>, n: nat)
    ensures m - gone - {n} == m - (gone + {n})
  {}

  class HeadersList {
    var headers: map<nat, Hash>

    constructor ()
      ensures headers == map[]
    {
      headers := map[];
    }

    method Add(h: Header)
      modifies this
      ensures headers == old(headers)[h.num := h.hash]
    {
      headers := headers[h.num := h.hash];
    }

    method Get(num: nat) returns (r: Option<Header>)
      ensures r == if num in headers then Some(Header(num, headers[num])) else None
    {
      if num in headers {
        return Some(Header(num, headers[num]));
      }
      return None;
    }

    /** getSorted: every tracked header once, in ascending order. */
    method GetSorted() returns (sortedBlocks: seq<Header>)
      ensures ListingOf(headers, sortedBlocks)
    {
      sortedBlocks := [];
      var left := headers.Keys;
      while left != {}
        invariant left <= headers.Keys
        invariant Ascending(sortedBlocks)
        invariant forall x :: x in sortedBlocks <==> x.num in headers && x.num !in left && x.hash == headers[x.num]
        decreases left
      {
        var n: nat :| n in left;
        InsertedSorted(sortedBlocks, Header(n, headers[n]));
        sortedBlocks := B.Insert(sortedBlocks, Header(n, headers[n]), Lower);
        left := left - {n};
      }
      forall i: nat | i < |sortedBlocks|
        ensures sortedBlocks[i].num in headers && headers[sortedBlocks[i].num] == sortedBlocks[i].hash
      {
        assert sortedBlocks[i] in sortedBlocks;
      }
    }

    method RemoveRange(from: nat, to: nat)
      modifies this
      ensures headers == Without(old(headers), from, to)
    {
      var i := from;
      while i <= to
        invariant from <= i
        invariant if from <= to then i <= to + 1 else i == from
        invariant headers == if i == from then old(headers) else Without(old(headers), from, i - 1)
        decreases (to + 1) - i
      {
        headers := headers - {i};
        i := i + 1;
      }
      assert from > to ==> Without(old(headers), from, to) == old(headers);
    }

    /** removeRange of a single number. */
    method RemoveOne(num: nat)
      modifies this
      ensures headers == old(headers) - {num}
    {
      RemoveRange(num, num);
    }

    /**
     The loop of detectReorgInTrackedList for this subscriber, up to the notification: finalised headers
     that match are untracked one by one, and the first header that does not match ends the pass.
     */
    method Detect(hash: HashOf, c: Chain, finalized: nat) returns (headersSeen: seq<Header>, outcome: Outcome)
      modifies this
      ensures ListingOf(old(headers), headersSeen)
      ensures outcome == Pass(hash, c, finalized, headersSeen).1
      ensures headers == old(headers) - Pass(hash, c, finalized, headersSeen).0
    {
      hide ListingOf, Pass;
      headersSeen := GetSorted();
      ghost var pruned: set<nat> := {};
      assert headersSeen[0..] == headersSeen;
      for i := 0 to |headersSeen|
        invariant headers == old(headers) - pruned
        invariant Pass(hash, c, finalized, headersSeen).0 == pruned + Pass(hash, c, finalized, headersSeen[i..]).0
        invariant Pass(hash, c, finalized, headersSeen).1 == Pass(hash, c, finalized, headersSeen[i..]).1
      {
        var hdr := headersSeen[i];
        PassTurn(hash, c, finalized, headersSeen, i);
        if hdr.num >= |c| {
          return headersSeen, Failed;
        }
        if hdr.hash == hash(c[..hdr.num + 1]) {
          if hdr.num <= finalized {
            RemoveOne(hdr.num);
            MinusOne(old(headers), pruned, hdr.num);
            pruned := pruned + {hdr.num};
          }
        } else {
          return headersSeen, Mismatch(hdr.num);
        }
      }
      assert headersSeen[|headersSeen|..] == [];
      PassEnds(hash, c, finalized);
      outcome := Clean;
    }
  }
}
