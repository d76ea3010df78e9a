/**
 The search for the first L1 info tree leaf that covers a deposit made on L1: a binary search over block numbers,
 where each probe looks at the first leaf at or after a block.
 */
module BridgeSearch {
  import opened Wrappers

  /** A row of l1info_leaf. Rows are ordered by (block, position) and numbered 0..n-1. */
  datatype Info = Info(block: nat, mainnetExitRoot: Hash)

  /** Index of the exit tree root that a mainnet exit root is, by its hash. */
  type Roots = map<Hash, nat>

  datatype Result = Found(index: nat) | NotFound | NotOnL1Info

  ghost predicate Sorted(leaves: seq<Info>) {
    forall i: nat, j: nat {:trigger leaves[i], leaves[j]} :: i < j < |leaves| ==> leaves[i].block <= leaves[j].block
  }

  ghost predicate FromBlockOne(leaves: seq<Info>) {
    forall i: nat {:trigger leaves[i]} :: i < |leaves| ==> 1 <= leaves[i].block
  }

  /** GetFirstInfoAfterBlock: the first leaf from i on with block >= b; |leaves| if there is none. */
  function FirstFrom(leaves: seq<Info>, b: nat, i: nat): (k: nat)
    requires i <= |leaves|
    ensures i <= k <= |leaves| && (k < |leaves| ==> leaves[k].block >= b)
    ensures forall j: nat {:trigger leaves[j]} :: i <= j < k ==> leaves[j].block < b
    decreases |leaves| - i
  {
    if i == |leaves| || leaves[i].block >= b then i else FirstFrom(leaves, b, i + 1)
  }

  /** The midpoint, rounded down. */
  function Middle(lower: nat, upper: nat): (m: nat)
    requires lower <= upper
    ensures lower <= m <= upper && lower + upper - 1 <= 2 * m <= lower + upper
  {
    lower + (upper - lower) / 2
  }

  /** The loop: limits, best result so far. With block numbers from 1 on `targetBlock - 1` does not wrap. */
  function Look(leaves: seq<Info>, roots: Roots, deposit: nat, lower: nat, upper: nat, best: nat): Result
    requires 1 <= lower
    decreases upper - lower
  {
    if lower > upper then Found(best)
    else
      var target := Middle(lower, upper);
      var k := FirstFrom(leaves, target, 0);
      if k == |leaves| || leaves[k].mainnetExitRoot !in roots then NotFound
      else
        var root := roots[leaves[k].mainnetExitRoot];
        if root < deposit then Look(leaves, roots, deposit, target + 1, upper, best)
        else if root == deposit then Found(k)
        else Look(leaves, roots, deposit, lower, target - 1, k)
  }

  /** One turn of the loop. */
  lemma LookTurn(leaves: seq<Info>, roots: Roots, deposit: nat, lower: nat, upper: nat, best: nat)
    requires 1 <= lower <= upper
    ensures var target := Middle(lower, upper);
            var k := FirstFrom(leaves, target, 0);
            Look(leaves, roots, deposit, lower, upper, best)
            == if k == |leaves| || leaves[k].mainnetExitRoot !in roots then NotFound
               else if roots[leaves[k].mainnetExitRoot] < deposit
                 then Look(leaves, roots, deposit, target + 1, upper, best)
               else if roots[leaves[k].mainnetExitRoot] == deposit then Found(k)
               else Look(leaves, roots, deposit, lower, target - 1, k)
  {
    hide Middle, FirstFrom;
  }

  lemma LookEnds(leaves: seq<Info>, roots: Roots, deposit: nat, lower: nat, upper: nat, best: nat)
    requires 1 <= lower && upper < lower
    ensures Look(leaves, roots, deposit, lower, upper, best) == Found(best)
  {}

  function Search(leaves: seq<Info>, roots: Roots, deposit: nat): Result
    requires FromBlockOne(leaves)
  {
    if leaves == [] then NotFound
    else
      var last := |leaves| - 1;
      if leaves[last].mainnetExitRoot !in roots then NotFound
      else if roots[leaves[last].mainnetExitRoot] < deposit then NotOnL1Info
      else Look(leaves, roots, deposit, leaves[0].block, leaves[last].block, last)
  }

  method GetFirstL1InfoTreeIndexForL1Bridge(leaves: seq<Info>, roots: Roots, depositCount: nat) returns (r: Result)
    requires FromBlockOne(leaves) && Sorted(leaves)
    ensures r == Search(leaves, roots, depositCount)
  {
    hide Look, FirstFrom;
    if |leaves| == 0 {
      return NotFound;
    }
    assert leaves[0].block <= leaves[|leaves| - 1].block;
    var lastInfo := |leaves| - 1;
    if leaves[lastInfo].mainnetExitRoot !in roots {
      return NotFound;
    }
    if roots[leaves[lastInfo].mainnetExitRoot] < depositCount {
      return NotOnL1Info;
    }
    var bestResult, lowerLimit, upperLimit := lastInfo, leaves[0].block, leaves[lastInfo].block;
    while lowerLimit <= upperLimit
      invariant 1 <= lowerLimit <= upperLimit + 1
      invariant Look(leaves, roots, depositCount, lowerLimit, upperLimit, bestResult)
                == Search(leaves, roots, depositCount)
      decreases upperLimit + 1 - lowerLimit
    {
      LookTurn(leaves, roots, depositCount, lowerLimit, upperLimit, bestResult);
      var targetBlock := lowerLimit + (upperLimit - lowerLimit) / 2;
      var targetInfo := FirstFrom(leaves, targetBlock, 0);
      if targetInfo == |leaves| || leaves[targetInfo].mainnetExitRoot !in roots {
        return NotFound;
      }
      var index := roots[leaves[targetInfo].mainnetExitRoot];
      if index < depositCount {
        lowerLimit := targetBlock + 1;
      } else if index == depositCount {
        return Found(targetInfo);
      } else {
        bestResult, upperLimit := targetInfo, targetBlock - 1;
      }
    }
    LookEnds(leaves, roots, depositCount, lowerLimit, upperLimit, bestResult);
    return Found(bestResult);
  }

  // ----- what it finds -----

  ghost predicate Known(leaves: seq<Info>, roots: Roots) {
    forall i: nat {:trigger leaves[i]} :: i < |leaves| ==> leaves[i].mainnetExitRoot in roots
  }

  function Deposits(leaves: seq<Info>, roots: Roots, i: nat): nat
    requires Known(leaves, roots) && i < |leaves|
  {
    roots[leaves[i].mainnetExitRoot]
  }

  ghost predicate Rising(leaves: seq<Info>, roots: Roots)
    requires Known(leaves, roots)
  {
    forall i: nat, j: nat {:trigger Deposits(leaves, roots, i), Deposits(leaves, roots, j)} ::
      i < j < |leaves| ==> Deposits(leaves, roots, i) <= Deposits(leaves, roots, j)
  }

  /** The leaf k covers the deposit. */
  ghost predicate Covers(leaves: seq<Info>, roots: Roots, deposit: nat, k: nat)
    requires Known(leaves, roots)
  {
    k < |leaves| && deposit <= Deposits(leaves, roots, k)
  }

  ghost predicate FirstCover(leaves: seq<Info>, roots: Roots, deposit: nat, k: nat)
    requires Known(leaves, roots)
  {
    Covers(leaves, roots, deposit, k) && forall j: nat {:trigger Covers(leaves, roots, deposit, j)} :: j < k ==>
      !Covers(leaves, roots, deposit, j)
  }

  /** The first leaf of its block. */
  predicate Head(leaves: seq<Info>, k: nat)
    requires k < |leaves|
  {
    k == 0 || leaves[k - 1].block < leaves[k].block
  }

  /** The best result that the search holds for its limits. */
  ghost predicate Best(leaves: seq<Info>, roots: Roots, deposit: nat, upper: nat, best: nat)
    requires Known(leaves, roots) && leaves != []
  {
    && Covers(leaves, roots, deposit, best)
    && upper <= leaves[|leaves| - 1].block
    && if upper == leaves[|leaves| - 1].block then best == |leaves| - 1 else best == FirstFrom(leaves, upper + 1, 0)
  }

  /** No leaf that a probe below `lower` sees covers the deposit. */
  ghost predicate NoneBelow(leaves: seq<Info>, roots: Roots, deposit: nat, lower: nat)
    requires Known(leaves, roots)
  {
    forall k: nat {:trigger Head(leaves, k)} :: k < |leaves| && leaves[k].block < lower && Head(leaves, k) ==>
      !Covers(leaves, roots, deposit, k)
  }

  /**
   The outcome: a leaf with exactly that deposit, or the first covering head, or the last leaf when no head
   covers.
   */
  ghost predicate Outcome(leaves: seq<Info>, roots: Roots, deposit: nat, k: nat)
    requires Known(leaves, roots)
  {
    && Covers(leaves, roots, deposit, k)
    && (|| (Head(leaves, k) && Deposits(leaves, roots, k) == deposit)
        || ((Head(leaves, k) || k == |leaves| - 1)
            && forall j: nat {:trigger Head(leaves, j)} :: j < k && Head(leaves, j) ==>
               !Covers(leaves, roots, deposit, j)))
  }

  lemma FirstFromIsHead(leaves: seq<Info>, b: nat)
    requires Sorted(leaves) && FirstFrom(leaves, b, 0) < |leaves|
    ensures Head(leaves, FirstFrom(leaves, b, 0))
  {}

  /** A leaf before the head of a probe lies below the probed block. */
  lemma ProbeMisses(leaves: seq<Info>, roots: Roots, deposit: nat, target: nat)
    requires Sorted(leaves) && Known(leaves, roots) && Rising(leaves, roots)
    requires FirstFrom(leaves, target, 0) < |leaves| && Deposits(leaves, roots, FirstFrom(leaves, target, 0)) < deposit
    ensures NoneBelow(leaves, roots, deposit, target + 1)
  {}

  lemma {:induction false} LookFinds(leaves: seq<Info>, roots: Roots, deposit: nat, lower: nat, upper: nat, best: nat)
    requires Sorted(leaves) && Known(leaves, roots) && Rising(leaves, roots) && leaves != []
    requires 1 <= lower <= upper + 1 && Best(leaves, roots, deposit, upper, best)
             && NoneBelow(leaves, roots, deposit, lower)
    ensures var r := Look(leaves, roots, deposit, lower, upper, best);
            r.Found? && Outcome(leaves, roots, deposit, r.index)
    decreases upper - lower
  {
    hide Look, FirstFrom, Middle, NoneBelow;
    var last := |leaves| - 1;
    if lower > upper {
      AllBelow(leaves, roots, deposit, upper, best);
      LookEnds(leaves, roots, deposit, lower, upper, best);
    } else {
      LookTurn(leaves, roots, deposit, lower, upper, best);
      var target := Middle(lower, upper);
      var k := FirstFrom(leaves, target, 0);
      assert k <= last by {
        assert leaves[last].block >= target;
      }
      FirstFromIsHead(leaves, target);
      var root := Deposits(leaves, roots, k);
      if root < deposit {
        ProbeMisses(leaves, roots, deposit, target);
        LookFinds(leaves, roots, deposit, target + 1, upper, best);
      } else if root > deposit {
        LookFinds(leaves, roots, deposit, lower, target - 1, k);
      }
    }
  }

  lemma AllBelow(leaves: seq<Info>, roots: Roots, deposit: nat, upper: nat, best: nat)
    requires Sorted(leaves) && Known(leaves, roots) && leaves != []
    requires Best(leaves, roots, deposit, upper, best) && NoneBelow(leaves, roots, deposit, upper + 1)
    ensures Outcome(leaves, roots, deposit, best)
  {}

  /**
   With known exit roots and deposits that never go down the search ends, without error, with a leaf that covers
   the deposit, unless no leaf does.
   */
  lemma SearchFinds(leaves: seq<Info>, roots: Roots, deposit: nat)
    requires FromBlockOne(leaves) && Sorted(leaves) && Known(leaves, roots) && Rising(leaves, roots) && leaves != []
    ensures Search(leaves, roots, deposit).Found? <==>
            exists k: nat {:trigger Covers(leaves, roots, deposit, k)} :: Covers(leaves, roots, deposit, k)
    ensures !Search(leaves, roots, deposit).Found? ==> Search(leaves, roots, deposit) == NotOnL1Info
    ensures Search(leaves, roots, deposit).Found? ==>
            Outcome(leaves, roots, deposit, Search(leaves, roots, deposit).index)
  {
    var last := |leaves| - 1;
    if Deposits(leaves, roots, last) >= deposit {
      assert Covers(leaves, roots, deposit, last);
      LookFinds(leaves, roots, deposit, leaves[0].block, leaves[last].block, last);
    }
  }

  lemma {:induction false} LookCovers(leaves: seq<Info>, roots: Roots, deposit: nat, lower: nat, upper: nat, best: nat)
    requires 1 <= lower && best < |leaves| && leaves[best].mainnetExitRoot in roots
    requires deposit <= roots[leaves[best].mainnetExitRoot]
    ensures var r := Look(leaves, roots, deposit, lower, upper, best);
            r.Found? ==> && r.index < |leaves| && leaves[r.index].mainnetExitRoot in roots
                         && deposit <= roots[leaves[r.index].mainnetExitRoot]
    decreases upper - lower
  {
    hide Look, FirstFrom, Middle;
    if lower > upper {
      LookEnds(leaves, roots, deposit, lower, upper, best);
    } else {
      LookTurn(leaves, roots, deposit, lower, upper, best);
      var target := Middle(lower, upper);
      var k := FirstFrom(leaves, target, 0);
      if k < |leaves| && leaves[k].mainnetExitRoot in roots {
        if roots[leaves[k].mainnetExitRoot] < deposit {
          LookCovers(leaves, roots, deposit, target + 1, upper, best);
        } else if deposit < roots[leaves[k].mainnetExitRoot] {
          LookCovers(leaves, roots, deposit, lower, target - 1, k);
        }
      }
    }
  }

  /** Whatever the rows and the known roots, a leaf that is returned has a known root and covers the deposit. */
  lemma FoundCovers(leaves: seq<Info>, roots: Roots, deposit: nat)
    requires FromBlockOne(leaves)
    ensures var r := Search(leaves, roots, deposit);
            r.Found? ==> && r.index < |leaves| && leaves[r.index].mainnetExitRoot in roots
                         && deposit <= roots[leaves[r.index].mainnetExitRoot]
  {
    hide Look;
    var last := |leaves| - 1;
    if leaves != [] && leaves[last].mainnetExitRoot in roots && deposit <= roots[leaves[last].mainnetExitRoot] {
      LookCovers(leaves, roots, deposit, leaves[0].block, leaves[last].block, last);
    }
  }

  // ----- when the first covering leaf is found -----

  /** The first midpoint that a bisection of lower..upper meets above a and not above z. */
  function FirstMiddle(lower: nat, upper: nat, a: nat, z: nat): (m: nat)
    requires lower <= a + 1 && a < z <= upper
    ensures a < m <= z
    decreases upper - lower
  {
    var m := Middle(lower, upper);
    if m <= a then FirstMiddle(m + 1, upper, a, z) else if m > z then FirstMiddle(lower, m - 1, a, z) else m
  }

  /** The blocks from which a probe sees leaf k or a later leaf: those above the block of the leaf before. */
  function BlockBefore(leaves: seq<Info>, k: nat): nat
    requires k < |leaves|
  {
    if k > 0 then leaves[k - 1].block else if leaves[0].block > 0 then leaves[0].block - 1 else 0
  }

  /** k is the first and z the last leaf with exactly this deposit. */
  ghost predicate ExactFrom(leaves: seq<Info>, roots: Roots, deposit: nat, k: nat, z: nat)
    requires Known(leaves, roots)
  {
    && k <= z < |leaves| && Deposits(leaves, roots, k) == deposit == Deposits(leaves, roots, z)
    && (forall j: nat {:trigger Deposits(leaves, roots, j)} :: j < k ==> Deposits(leaves, roots, j) < deposit)
    && (forall j: nat {:trigger Deposits(leaves, roots, j)} :: z < j < |leaves| ==>
          deposit < Deposits(leaves, roots, j))
  }

  /** What a probe at block t sees, by where t lies. */
  lemma ProbeSees(leaves: seq<Info>, roots: Roots, deposit: nat, k: nat, z: nat, t: nat)
    requires Sorted(leaves) && Known(leaves, roots) && Rising(leaves, roots) && ExactFrom(leaves, roots, deposit, k, z)
    requires leaves[0].block <= t <= leaves[|leaves| - 1].block && 1 <= leaves[0].block
    ensures var p := FirstFrom(leaves, t, 0);
            && p < |leaves|
            && (t <= BlockBefore(leaves, k) ==> Deposits(leaves, roots, p) < deposit)
            && (BlockBefore(leaves, k) < t <= leaves[z].block ==> Deposits(leaves, roots, p) == deposit)
            && (leaves[z].block < t ==> deposit < Deposits(leaves, roots, p))
            && (BlockBefore(leaves, k) < t ==> (p == k <==> t <= leaves[k].block))
  {
    var p := FirstFrom(leaves, t, 0);
    assert leaves[|leaves| - 1].block >= t;
    assert k > 0 ==> (p <= k - 1 <==> t <= leaves[k - 1].block);
    assert p <= z <==> t <= leaves[z].block;
    assert p <= k <==> t <= leaves[k].block;
    if k <= p <= z {
      assert Deposits(leaves, roots, k) <= Deposits(leaves, roots, p) <= Deposits(leaves, roots, z);
    }
  }

  /** The loop ends at the first midpoint that sees the deposit. */
  lemma {:induction false} LookStops(
    leaves: seq<Info>, roots: Roots, deposit: nat, k: nat, z: nat, lower: nat, upper: nat, best: nat)
    requires Sorted(leaves) && Known(leaves, roots) && Rising(leaves, roots) && ExactFrom(leaves, roots, deposit, k, z)
    requires k <= z < |leaves| && 1 <= leaves[0].block <= lower <= BlockBefore(leaves, k) + 1
    requires BlockBefore(leaves, k) < leaves[z].block <= upper <= leaves[|leaves| - 1].block
    ensures Look(leaves, roots, deposit, lower, upper, best)
            == Found(FirstFrom(leaves, FirstMiddle(lower, upper, BlockBefore(leaves, k), leaves[z].block), 0))
    decreases upper - lower
  {
    hide Look, FirstFrom, Middle, Sorted, Rising, ExactFrom;
    var a, t := BlockBefore(leaves, k), Middle(lower, upper);
    LookTurn(leaves, roots, deposit, lower, upper, best);
    ProbeSees(leaves, roots, deposit, k, z, t);
    if t <= a {
      LookStops(leaves, roots, deposit, k, z, t + 1, upper, best);
    } else if leaves[z].block < t {
      LookStops(leaves, roots, deposit, k, z, lower, t - 1, FirstFrom(leaves, t, 0));
    }
  }

  /**
   Exactly when the first leaf k that covers a deposit is found. If it has exactly the deposit, z is the last leaf
   that has it and some block sees one of them, then the first midpoint among those blocks must not lie beyond the
   block of k. Otherwise k must be the first leaf of its block, or the last leaf of all.
   */
  lemma FirstIsFoundIff(leaves: seq<Info>, roots: Roots, deposit: nat, k: nat, z: nat)
    requires FromBlockOne(leaves) && Sorted(leaves) && Known(leaves, roots) && Rising(leaves, roots)
    requires FirstCover(leaves, roots, deposit, k)
    requires k <= z < |leaves| && Deposits(leaves, roots, z) == Deposits(leaves, roots, k)
    requires z + 1 < |leaves| ==> Deposits(leaves, roots, z) < Deposits(leaves, roots, z + 1)
    ensures Search(leaves, roots, deposit) == Found(k) <==>
            var a := BlockBefore(leaves, k);
            if Deposits(leaves, roots, k) == deposit && a < leaves[z].block
            then FirstMiddle(leaves[0].block, leaves[|leaves| - 1].block, a, leaves[z].block) <= leaves[k].block
            else Head(leaves, k) || k == |leaves| - 1
  {
    hide Look, FirstFrom;
    var a, last := BlockBefore(leaves, k), |leaves| - 1;
    assert leaves[0].block <= leaves[k].block <= leaves[z].block <= leaves[last].block;
    if Deposits(leaves, roots, k) == deposit {
      LastExact(leaves, roots, deposit, k, z);
    }
    if Deposits(leaves, roots, k) == deposit && a < leaves[z].block {
      assert k > 0 ==> leaves[0].block <= leaves[k - 1].block;
      assert deposit <= Deposits(leaves, roots, last);
      LookStops(leaves, roots, deposit, k, z, leaves[0].block, leaves[last].block, last);
      ProbeSees(leaves, roots, deposit, k, z, FirstMiddle(leaves[0].block, leaves[last].block, a, leaves[z].block));
    } else {
      NoProbeStops(leaves, roots, deposit, k, z);
    }
  }

  lemma LastExact(leaves: seq<Info>, roots: Roots, deposit: nat, k: nat, z: nat)
    requires Known(leaves, roots) && Rising(leaves, roots) && FirstCover(leaves, roots, deposit, k)
    requires k <= z < |leaves| && Deposits(leaves, roots, z) == Deposits(leaves, roots, k) == deposit
    requires z + 1 < |leaves| ==> Deposits(leaves, roots, z) < Deposits(leaves, roots, z + 1)
    ensures ExactFrom(leaves, roots, deposit, k, z)
  {
    forall j: nat {:trigger Deposits(leaves, roots, j)} | j < k
      ensures Deposits(leaves, roots, j) < deposit
    {
      assert !Covers(leaves, roots, deposit, j);
    }
    forall j: nat {:trigger Deposits(leaves, roots, j)} | z < j < |leaves|
      ensures deposit < Deposits(leaves, roots, j)
    {
      assert Deposits(leaves, roots, z + 1) <= Deposits(leaves, roots, j) || j == z + 1;
    }
  }

  /**
   When no block sees a leaf with exactly the deposit, the search ends at the first covering head, or the last
   leaf.
   */
  lemma NoProbeStops(leaves: seq<Info>, roots: Roots, deposit: nat, k: nat, z: nat)
    requires FromBlockOne(leaves) && Sorted(leaves) && Known(leaves, roots) && Rising(leaves, roots)
    requires FirstCover(leaves, roots, deposit, k) && k <= z < |leaves|
    requires Deposits(leaves, roots, k) == deposit ==>
               ExactFrom(leaves, roots, deposit, k, z) && leaves[z].block <= BlockBefore(leaves, k)
    ensures Search(leaves, roots, deposit) == Found(k) <==> Head(leaves, k) || k == |leaves| - 1
  {
    hide Search;
    SearchFinds(leaves, roots, deposit);
    assert Covers(leaves, roots, deposit, k);
    var i := Search(leaves, roots, deposit).index;
    if Head(leaves, i) && Deposits(leaves, roots, i) == deposit {
      NotAHead(leaves, roots, deposit, k, z, i);
    }
  }

  lemma NotAHead(leaves: seq<Info>, roots: Roots, deposit: nat, k: nat, z: nat, i: nat)
    requires FromBlockOne(leaves) && Sorted(leaves) && Known(leaves, roots) && Rising(leaves, roots)
    requires FirstCover(leaves, roots, deposit, k) && k <= z < |leaves|
    requires Deposits(leaves, roots, k) == deposit ==>
               ExactFrom(leaves, roots, deposit, k, z) && leaves[z].block <= BlockBefore(leaves, k)
    requires i < |leaves| && Deposits(leaves, roots, i) == deposit
    ensures !Head(leaves, i)
  {
    assert Covers(leaves, roots, deposit, i);
    if k < i {
      assert Deposits(leaves, roots, k) <= Deposits(leaves, roots, i);
    }
    assert k <= i <= z;
    assert 1 <= leaves[0].block;
    assert k > 0 && leaves[k - 1].block <= leaves[i - 1].block <= leaves[i].block <= leaves[z].block;
  }

  ghost predicate StrictlyRising(leaves: seq<Info>, roots: Roots)
    requires Known(leaves, roots)
  {
    forall i: nat, j: nat {:trigger Deposits(leaves, roots, i), Deposits(leaves, roots, j)} ::
      i < j < |leaves| ==> Deposits(leaves, roots, i) < Deposits(leaves, roots, j)
  }

  ghost predicate OnePerBlock(leaves: seq<Info>) {
    forall i: nat, j: nat {:trigger leaves[i], leaves[j]} :: i < j < |leaves| ==> leaves[i].block < leaves[j].block
  }

  /** So it is found when each block has at most one leaf and the deposits strictly rise. */
  lemma FirstIsFound(leaves: seq<Info>, roots: Roots, deposit: nat, k: nat)
    requires FromBlockOne(leaves) && Known(leaves, roots) && FirstCover(leaves, roots, deposit, k)
    requires StrictlyRising(leaves, roots) && OnePerBlock(leaves)
    ensures Search(leaves, roots, deposit) == Found(k)
  {
    hide Search;
    assert Sorted(leaves) && Rising(leaves, roots);
    assert k > 0 ==> leaves[k - 1].block < leaves[k].block;
    assert leaves[0].block <= leaves[k].block && 1 <= leaves[0].block;
    FirstIsFoundIff(leaves, roots, deposit, k, k);
  }

  /** Two leaves in one block: the second is the first to cover deposit 1, and is not found. */
  lemma TwoLeavesInABlock()
    ensures var leaves, roots := [Info(1, 10), Info(1, 11), Info(2, 12)], map[10 := 0, 11 := 1, 12 := 2];
            && FromBlockOne(leaves) && Known(leaves, roots) && FirstCover(leaves, roots, 1, 1)
            && Search(leaves, roots, 1) != Found(1)
  {
    hide Search;
    var leaves, roots: Roots := [Info(1, 10), Info(1, 11), Info(2, 12)], map[10 := 0, 11 := 1, 12 := 2];
    assert Known(leaves, roots) && Sorted(leaves) && Rising(leaves, roots);
    FirstIsFoundIff(leaves, roots, 1, 1, 1);
  }

  /** Three leaves with the same exit root: leaf 0 covers the deposit, yet the search stops at leaf 1. */
  lemma SameExitRootTwice()
    ensures var leaves, roots := [Info(1, 10), Info(2, 10), Info(3, 10)], map[10 := 0];
            FromBlockOne(leaves) && Known(leaves, roots) && FirstCover(leaves, roots, 0, 0)
              && Search(leaves, roots, 0) == Found(1)
  {
    var leaves := [Info(1, 10), Info(2, 10), Info(3, 10)];
    assert FirstFrom(leaves, 2, 0) == 1;
  }

  /** Two leaves in blocks b and b + 1 with the deposit: the lower block is probed first, and leaf 0 is returned. */
  lemma AdjacentBlocks(b: nat, root: Hash, deposit: nat)
    requires 1 <= b
    ensures Search([Info(b, root), Info(b + 1, root)], map[root := deposit], deposit) == Found(0)
  {
    var leaves := [Info(b, root), Info(b + 1, root)];
    assert Middle(b, b + 1) == b;
    assert FirstFrom(leaves, b, 0) == 0;
  }
}
