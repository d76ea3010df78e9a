/** Tables as ordered rows: the delete by block number that a reorg makes, and the insert that keeps an order. */
module BlockRows {

  /** The row goes behind the last row that comes before it. */
  function Insert<T>(rows: seq<T>, row: T, before: (T, T) -> bool): (r: seq<T>)
    ensures |r| == |rows| + 1
  {
    var n := |rows| - 1;
    if rows == [] || before(rows[n], row) then rows + [row] else Insert(rows[..n], row, before) + [rows[n]]
  }

  lemma InsertStep<T>(rows: seq<T>, row: T, before: (T, T) -> bool)
    ensures var n := |rows| - 1;
            Insert(rows, row, before)
            == if rows == [] || before(rows[n], row) then rows + [row] else Insert(rows[..n], row, before) + [rows[n]]
  {}

  lemma {:induction false} InsertHas<T>(rows: seq<T>, row: T, before: (T, T) -> bool, x: T)
    ensures x in Insert(rows, row, before) <==> x in rows || x == row
    decreases |rows|
  {
    hide Insert;
    InsertStep(rows, row, before);
    if rows != [] {
      var n := |rows| - 1;
      assert rows == rows[..n] + [rows[n]];
      InsertHas(rows[..n], row, before, x);
    }
  }

  /** The rows of blocks below `from`. */
  function Keep<T>(rows: seq<T>, block: T -> nat, from: nat): (r: seq<T>)
    ensures |r| <= |rows|
  {
    if rows == [] then [] else
    var n := |rows| - 1;
    var front := Keep(rows[..n], block, from);
    if block(rows[n]) < from then front + [rows[n]] else front
  }

  lemma KeepPush<T>(rows: seq<T>, row: T, block: T -> nat, from: nat)
    ensures var front := Keep(rows, block, from);
            Keep(rows + [row], block, from) == if block(row) < from then front + [row] else front
  {
    assert (rows + [row])[..|rows|] == rows;
  }

  ghost predicate Rising<T>(rows: seq<T>, block: T -> nat) {
    forall i: nat, j: nat {:trigger rows[i], rows[j]} :: i < j < |rows| ==> block(rows[i]) <= block(rows[j])
  }

  lemma RisingPush<T>(rows: seq<T>, row: T, block: T -> nat)
    requires Rising(rows, block) && (rows != [] ==> block(rows[|rows| - 1]) <= block(row))
    ensures Rising(rows + [row], block)
  {}

  /** n is where the rows of blocks below `from` end. */
  ghost predicate Splits<T>(rows: seq<T>, block: T -> nat, from: nat, n: nat) {
    n <= |rows| && forall k: nat {:trigger rows[k]} :: k < |rows| ==> (k < n <==> block(rows[k]) < from)
  }

  /** On rows in block order the delete cuts a suffix: exactly the rows from that block on. */
  lemma {:induction false} KeepCuts<T>(rows: seq<T>, block: T -> nat, from: nat)
    requires Rising(rows, block)
    ensures Keep(rows, block, from) == rows[..|Keep(rows, block, from)|]
    ensures Splits(rows, block, from, |Keep(rows, block, from)|)
    decreases |rows|
  {
    hide Keep, Rising, Splits;
    if rows == [] {
      KeepNone(rows, block, from);
    } else {
      var n := |rows| - 1;
      var front, row := rows[..n], rows[n];
      assert rows == front + [row];
      RisingFront(rows, block);
      KeepCuts(front, block, from);
      KeepPush(front, row, block, from);
      SplitsPush(front, row, block, from, |Keep(front, block, from)|);
    }
  }

  lemma RisingFront<T>(rows: seq<T>, block: T -> nat)
    requires Rising(rows, block) && rows != []
    ensures var n := |rows| - 1; Rising(rows[..n], block) && (n > 0 ==> block(rows[n - 1]) <= block(rows[n]))
  {}

  lemma SplitsPush<T>(rows: seq<T>, row: T, block: T -> nat, from: nat, n: nat)
    requires Splits(rows, block, from, n) && (rows != [] ==> block(rows[|rows| - 1]) <= block(row))
    ensures block(row) < from ==> n == |rows|
    ensures Splits(rows + [row], block, from, if block(row) < from then n + 1 else n)
  {}

  lemma KeepNone<T>(rows: seq<T>, block: T -> nat, from: nat)
    requires rows == []
    ensures Keep(rows, block, from) == [] && Splits(rows, block, from, 0)
  {}

  /** There is one such place, so tables in step with each other are cut at the same row. */
  lemma SplitOnce<S, T>(rows: seq<S>, f: S -> nat, others: seq<T>, g: T -> nat, from: nat, m: nat, n: nat)
    requires |rows| == |others|
    requires forall k: nat {:trigger rows[k]} {:trigger others[k]} :: k < |rows| ==> f(rows[k]) == g(others[k])
    requires Splits(rows, f, from, m) && Splits(others, g, from, n)
    ensures m == n
  {
    assert m < |rows| ==> f(rows[m]) == g(others[m]);
    assert n < |rows| ==> f(rows[n]) == g(others[n]);
  }

  /** Rows in step with a table in block order are cut where that table is. */
  lemma KeepTogether<S, T>(rows: seq<S>, f: S -> nat, others: seq<T>, g: T -> nat, from: nat)
    requires |rows| == |others| && Rising(others, g)
    requires forall k: nat {:trigger rows[k]} {:trigger others[k]} :: k < |rows| ==> f(rows[k]) == g(others[k])
    ensures var n := |Keep(rows, f, from)|;
            && n == |Keep(others, g, from)| <= |rows|
            && Keep(rows, f, from) == rows[..n] && Keep(others, g, from) == others[..n] && Splits(rows, f, from, n)
  {
    hide Keep;
    forall i: nat, j: nat {:trigger rows[i], rows[j]} | i < j < |rows|
      ensures f(rows[i]) <= f(rows[j])
    {
      assert g(others[i]) <= g(others[j]);
    }
    KeepCuts(rows, f, from);
    KeepCuts(others, g, from);
    SplitOnce(rows, f, others, g, from, |Keep(rows, f, from)|, |Keep(others, g, from)|);
  }

  lemma {:induction false} KeepAll<T>(rows: seq<T>, block: T -> nat, from: nat)
    requires forall k: nat {:trigger rows[k]} :: k < |rows| ==> block(rows[k]) < from
    ensures Keep(rows, block, from) == rows
    decreases |rows|
  {
    hide Keep;
    if rows == [] {
      KeepNone(rows, block, from);
    } else {
      var n := |rows| - 1;
      assert rows == rows[..n] + [rows[n]];
      KeepAll(rows[..n], block, from);
      KeepPush(rows[..n], rows[n], block, from);
    }
  }

  /** As many rows are left as there were exactly when all are. */
  lemma {:induction false} KeepCounts<T>(rows: seq<T>, block: T -> nat, from: nat)
    ensures |Keep(rows, block, from)| == |rows| <==> Keep(rows, block, from) == rows
    decreases |rows|
  {
    if rows != [] {
      var n := |rows| - 1;
      assert rows == rows[..n] + [rows[n]];
      KeepCounts(rows[..n], block, from);
    }
  }

  lemma {:induction false} KeepTwice<T>(rows: seq<T>, block: T -> nat, a: nat, b: nat)
    ensures Keep(Keep(rows, block, a), block, b) == Keep(rows, block, if a < b then a else b)
    decreases |rows|
  {
    if rows != [] {
      var n := |rows| - 1;
      KeepTwice(rows[..n], block, a, b);
      KeepPush(Keep(rows[..n], block, a), rows[n], block, b);
    }
  }

  lemma {:induction false} KeepHas<T>(rows: seq<T>, block: T -> nat, from: nat, x: T)
    ensures x in Keep(rows, block, from) <==> x in rows && block(x) < from
    decreases |rows|
  {
    hide Keep;
    if rows == [] {
      KeepNone(rows, block, from);
    } else {
      var n := |rows| - 1;
      assert rows == rows[..n] + [rows[n]];
      KeepHas(rows[..n], block, from, x);
      KeepPush(rows[..n], rows[n], block, from);
    }
  }

  ghost predicate Within<T>(rows: seq<T>, block: T -> nat, blocks: set<nat>) {
    forall k: nat {:trigger rows[k]} :: k < |rows| ==> block(rows[k]) in blocks
  }

  /** Rows of stored blocks stay rows of stored blocks; when no block goes, no row goes. */
  lemma {:induction false} KeepWithin<T>(rows: seq<T>, block: T -> nat, from: nat, blocks: set<nat>)
    requires Within(rows, block, blocks)
    ensures Within(Keep(rows, block, from), block, set b | b in blocks && b < from)
    ensures (forall b :: b in blocks ==> b < from) ==> Keep(rows, block, from) == rows
    decreases |rows|
  {
    if rows != [] {
      var n := |rows| - 1;
      assert rows == rows[..n] + [rows[n]] && block(rows[n]) in blocks;
      assert forall i: nat {:trigger rows[..n][i]} :: i < n ==> rows[..n][i] == rows[i];
      KeepWithin(rows[..n], block, from, blocks);
    }
  }
}
