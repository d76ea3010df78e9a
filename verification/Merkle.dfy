/**
 The zero-padded binary Merkle tree that the append-only tree, the updatable tree and the
 L1 info tree are all measured against.

 A hash is a number: only its equality and the all-zero value matter here. The hash function is a
 parameter of everything. No property of it is assumed unless a precondition says so.
 */
module Merkle {
  import opened Wrappers

  type Hasher = (Hash, Hash) -> Hash

  /** Leaves by index. An index that is not in the map holds the zero hash. */
  type Leaves = map<nat, Hash>

  // ----- positions -----

  function Pow2(n: nat): (r: nat)
    ensures r >= 1
  {
    if n == 0 then 1 else 2 * Pow2(n - 1)
  }

  /** `i >> h`: the position, at level h, of the node above leaf i. */
  function Up(i: nat, h: nat): nat {
    if h == 0 then i else Up(i, h - 1) / 2
  }

  /** `i & (1 << h) > 0`: on the way up from leaf i, the node at level h is a right child. */
  predicate IsRight(i: nat, h: nat) {
    Up(i, h) % 2 == 1
  }

  function Sibling(p: nat): nat {
    if p % 2 == 1 then p - 1 else p + 1
  }

  lemma {:induction false} UpHalf(i: nat, h: nat)
    ensures Up(i, h + 1) == Up(i / 2, h)
    decreases h
  {
    if h > 0 {
      UpHalf(i, h - 1);
    }
  }

  lemma {:induction false} UpIsZero(i: nat, h: nat)
    ensures Up(i, h) == 0 <==> i < Pow2(h)
    decreases h
  {
    if h > 0 {
      UpHalf(i, h - 1);
      UpIsZero(i / 2, h - 1);
    }
  }

  lemma {:induction false} UpAtMost(i: nat, h: nat)
    ensures Up(i, h) <= i
    decreases h
  {
    if h > 0 {
      UpAtMost(i, h - 1);
    }
  }

  lemma {:induction false} UpMonotone(i: nat, j: nat, h: nat)
    requires i <= j
    ensures Up(i, h) <= Up(j, h)
    decreases h
  {
    if h > 0 {
      UpMonotone(i, j, h - 1);
    }
  }

  /** Moving to the next leaf moves a position at level h by one exactly when a carry gets there. */
  lemma {:induction false} UpNext(i: nat, h: nat)
    ensures Up(i + 1, h) == Up(i, h) || Up(i + 1, h) == Up(i, h) + 1
    ensures IsRight(i + 1, h) && IsRight(i, h) ==> Up(i + 1, h) == Up(i, h)
    ensures IsRight(i + 1, h) && !IsRight(i, h) ==> Up(i + 1, h) == Up(i, h) + 1
    decreases h
  {
    if h > 0 {
      UpNext(i, h - 1);
    }
  }

  // ----- the specification -----

  function LeafAt(m: Leaves, i: nat): Hash {
    if i in m then m[i] else 0
  }

  /** Root of the empty subtree of height h. */
  function Zero(H: Hasher, h: nat): Hash {
    if h == 0 then 0 else H(Zero(H, h - 1), Zero(H, h - 1))
  }

  /** Root of the subtree of height h whose leaves are those below position p of level h. */
  function Node(H: Hasher, m: Leaves, h: nat, p: nat): Hash
    decreases h
  {
    if h == 0 then LeafAt(m, p) else H(Node(H, m, h - 1, 2 * p), Node(H, m, h - 1, 2 * p + 1))
  }

  lemma NodeLeaf(H: Hasher, m: Leaves, p: nat)
    ensures Node(H, m, 0, p) == LeafAt(m, p)
  {}

  function Root(H: Hasher, m: Leaves, height: nat): Hash {
    Node(H, m, height, 0)
  }

  /** A list of leaves, as indexed leaves. */
  function Listed(s: seq<Hash>): Leaves {
    map i: nat | i < |s| :: s[i]
  }

  // ----- which leaves a node depends on -----

  ghost predicate Vacant(m: Leaves, h: nat, p: nat) {
    forall i: nat {:trigger i in m} :: i in m ==> Up(i, h) != p
  }

  ghost predicate SameBelow(m: Leaves, n: Leaves, h: nat, p: nat) {
    forall i: nat :: Up(i, h) == p ==> (i in m <==> i in n) && LeafAt(m, i) == LeafAt(n, i)
  }

  lemma SameBelowChild(m: Leaves, n: Leaves, h: nat, p: nat, q: nat)
    requires SameBelow(m, n, h + 1, p) && q / 2 == p
    ensures SameBelow(m, n, h, q)
  {}

  lemma VacantChild(m: Leaves, h: nat, p: nat, q: nat)
    requires Vacant(m, h + 1, p) && q / 2 == p
    ensures Vacant(m, h, q)
  {}

  /** A node is a function of the leaves below it and of nothing else. */
  lemma {:induction false} NodeFrame(H: Hasher, m: Leaves, n: Leaves, h: nat, p: nat)
    requires SameBelow(m, n, h, p)
    ensures Node(H, m, h, p) == Node(H, n, h, p)
    decreases h
  {
    if h == 0 {
      assert Up(p, 0) == p;
    } else {
      SameBelowChild(m, n, h - 1, p, 2 * p);
      SameBelowChild(m, n, h - 1, p, 2 * p + 1);
      NodeFrame(H, m, n, h - 1, 2 * p);
      NodeFrame(H, m, n, h - 1, 2 * p + 1);
    }
  }

  lemma {:induction false} NodeVacant(H: Hasher, m: Leaves, h: nat, p: nat)
    requires Vacant(m, h, p)
    ensures Node(H, m, h, p) == Zero(H, h)
    decreases h
  {
    if h == 0 {
      assert Up(p, 0) == p;
    } else {
      VacantChild(m, h - 1, p, 2 * p);
      VacantChild(m, h - 1, p, 2 * p + 1);
      NodeVacant(H, m, h - 1, 2 * p);
      NodeVacant(H, m, h - 1, 2 * p + 1);
    }
  }

  /** Setting leaf i leaves every node that is not above i alone. */
  lemma NodeElsewhere(H: Hasher, m: Leaves, i: nat, v: Hash, h: nat, p: nat)
    requires Up(i, h) != p
    ensures Node(H, m[i := v], h, p) == Node(H, m, h, p)
  {
    NodeFrame(H, m[i := v], m, h, p);
  }

  /** A node and its sibling hash, in order, to their parent. */
  lemma NodeStep(H: Hasher, m: Leaves, h: nat, p: nat)
    ensures Node(H, m, h + 1, p / 2) ==
            if p % 2 == 1 then H(Node(H, m, h, Sibling(p)), Node(H, m, h, p))
            else H(Node(H, m, h, p), Node(H, m, h, Sibling(p)))
  {
    assert p == 2 * (p / 2) + p % 2;
  }

  // ----- climbing from a leaf to the root -----

  /** The hash reached at level h from a leaf, meeting sib[0], sib[1], ... on the way. */
  function Climb(H: Hasher, sib: seq<Hash>, leaf: Hash, i: nat, h: nat): Hash
    requires h <= |sib|
  {
    if h == 0 then leaf
    else if IsRight(i, h - 1) then H(sib[h - 1], Climb(H, sib, leaf, i, h - 1))
    else H(Climb(H, sib, leaf, i, h - 1), sib[h - 1])
  }

  /** sib holds, level by level, the siblings on the path of leaf i. */
  ghost predicate SiblingsOf(H: Hasher, m: Leaves, sib: seq<Hash>, i: nat) {
    forall k: nat {:trigger sib[k]} :: k < |sib| ==> sib[k] == Node(H, m, k, Sibling(Up(i, k)))
  }

  lemma ClimbStep(H: Hasher, m: Leaves, sib: seq<Hash>, leaf: Hash, i: nat, h: nat)
    requires h < |sib| && sib[h] == Node(H, m, h, Sibling(Up(i, h)))
    requires Climb(H, sib, leaf, i, h) == Node(H, m, h, Up(i, h))
    ensures Climb(H, sib, leaf, i, h + 1) == Node(H, m, h + 1, Up(i, h + 1))
  {
    NodeStep(H, m, h, Up(i, h));
  }

  /** Climbing along the right siblings from any leaf value gives the node of the tree with that leaf set. */
  lemma {:induction false} ClimbInsert(H: Hasher, m: Leaves, sib: seq<Hash>, i: nat, v: Hash, h: nat)
    requires h <= |sib| && SiblingsOf(H, m, sib, i)
    ensures Climb(H, sib, v, i, h) == Node(H, m[i := v], h, Up(i, h))
    decreases h
  {
    if h > 0 {
      ClimbInsert(H, m, sib, i, v, h - 1);
      NodeElsewhere(H, m, i, v, h - 1, Sibling(Up(i, h - 1)));
      ClimbStep(H, m[i := v], sib, v, i, h - 1);
    }
  }

  /** A tree read off its own siblings: the proof of leaf i leads from that leaf to the root. */
  lemma ClimbToRoot(H: Hasher, m: Leaves, sib: seq<Hash>, i: nat, height: nat)
    requires |sib| == height && SiblingsOf(H, m, sib, i) && i < Pow2(height)
    ensures Climb(H, sib, LeafAt(m, i), i, height) == Root(H, m, height)
  {
    var n := m[i := LeafAt(m, i)];
    ClimbInsert(H, m, sib, i, LeafAt(m, i), height);
    UpIsZero(i, height);
    SameLeavesSameNode(H, n, m, height, 0);
  }

  lemma {:induction false} SameLeavesSameNode(H: Hasher, m: Leaves, n: Leaves, h: nat, p: nat)
    requires forall i: nat :: LeafAt(m, i) == LeafAt(n, i)
    ensures Node(H, m, h, p) == Node(H, n, h, p)
    decreases h
  {
    if h > 0 {
      SameLeavesSameNode(H, m, n, h - 1, 2 * p);
      SameLeavesSameNode(H, m, n, h - 1, 2 * p + 1);
    }
  }

  // ----- appending -----

  /** What appending leaf n needs of the kept left nodes: the left neighbour wherever n branches right. */
  ghost predicate Frontier(H: Hasher, m: Leaves, siblings: seq<Hash>, n: nat) {
    forall h: nat {:trigger siblings[h]} :: h < |siblings| && IsRight(n, h) ==>
      siblings[h] == Node(H, m, h, Up(n, h) - 1)
  }

  /** The siblings met on the way up: the kept one on the left, an empty subtree on the right. */
  function Met(H: Hasher, siblings: seq<Hash>, n: nat): (sib: seq<Hash>)
    ensures |sib| == |siblings|
  {
    seq(|siblings|, h requires 0 <= h < |siblings| => if IsRight(n, h) then siblings[h] else Zero(H, h))
  }

  /** Past the last leaf every node to the right of the path is empty. */
  lemma RightOfPathVacant(leaves: seq<Hash>, h: nat, p: nat)
    requires p > Up(|leaves|, h)
    ensures Vacant(Listed(leaves), h, p)
  {
    forall i: nat | Up(i, h) == p
      ensures i !in Listed(leaves)
    {
      if i <= |leaves| {
        UpMonotone(i, |leaves|, h);
      }
    }
  }

  lemma MetAreSiblings(H: Hasher, leaves: seq<Hash>, siblings: seq<Hash>)
    requires Frontier(H, Listed(leaves), siblings, |leaves|)
    ensures SiblingsOf(H, Listed(leaves), Met(H, siblings, |leaves|), |leaves|)
  {
    var n := |leaves|;
    forall k: nat | k < |siblings|
      ensures Met(H, siblings, n)[k] == Node(H, Listed(leaves), k, Sibling(Up(n, k)))
    {
      if !IsRight(n, k) {
        RightOfPathVacant(leaves, k, Up(n, k) + 1);
        NodeVacant(H, Listed(leaves), k, Up(n, k) + 1);
      }
    }
  }

  lemma NoClimb(H: Hasher, sib: seq<Hash>, leaf: Hash, n: nat)
    ensures Climb(H, sib, leaf, n, 0) == leaf
  {}

  /** One level of climbing past the siblings met. */
  lemma ClimbMet(H: Hasher, siblings: seq<Hash>, leaf: Hash, n: nat, h: nat)
    requires h < |siblings|
    ensures var met := Met(H, siblings, n);
            && met[h] == (if IsRight(n, h) then siblings[h] else Zero(H, h))
            && Climb(H, met, leaf, n, h + 1)
               == if IsRight(n, h) then H(siblings[h], Climb(H, met, leaf, n, h))
                 else H(Climb(H, met, leaf, n, h), Zero(H, h))
  {}

  lemma ListedAppend(leaves: seq<Hash>, leaf: Hash)
    ensures Listed(leaves + [leaf]) == Listed(leaves)[|leaves| := leaf]
  {}

  /** The loop of CalculateRoot. */
  method CalculateRoot(H: Hasher, leafHash: Hash, proof: seq<Hash>, index: nat) returns (node: Hash)
    ensures node == Climb(H, proof, leafHash, index, |proof|)
  {
    node := leafHash;
    var height := 0;
    var shifted := index;
    while height < |proof|
      invariant height <= |proof|
      invariant shifted == Up(index, height)
      invariant node == Climb(H, proof, leafHash, index, height)
    {
      if shifted % 2 == 1 {
        node := H(proof[height], node);
      } else {
        node := H(node, proof[height]);
      }
      height := height + 1;
      shifted := shifted / 2;
    }
  }

  /** The loop of generateZeroHashes. */
  method GenerateZeroHashes(H: Hasher, height: nat) returns (zeroHashes: seq<Hash>)
    ensures |zeroHashes| == height + 1
    ensures forall h: nat {:trigger zeroHashes[h]} :: h <= height ==> zeroHashes[h] == Zero(H, h)
  {
    zeroHashes := [0];
    for i := 1 to height + 1
      invariant |zeroHashes| == i
      invariant forall h: nat {:trigger zeroHashes[h]} :: h < i ==> zeroHashes[h] == Zero(H, h)
    {
      zeroHashes := zeroHashes + [H(zeroHashes[i - 1], zeroHashes[i - 1])];
    }
  }

  // ----- what a collision-free hash adds -----

  ghost predicate Injective(H: Hasher) {
    forall a, b, c, d :: H(a, b) == H(c, d) ==> a == c && b == d
  }

  lemma Parts(H: Hasher, a: Hash, b: Hash, c: Hash, d: Hash)
    requires Injective(H) && H(a, b) == H(c, d)
    ensures a == c && b == d
  {}

  /** With a collision-free hash a proof binds: no other leaf value and no other siblings reach the same hash. */
  lemma {:induction false} ClimbBinds(H: Hasher, sib: seq<Hash>, bis: seq<Hash>, u: Hash, v: Hash, i: nat, h: nat)
    requires Injective(H) && h <= |sib| && h <= |bis|
    requires Climb(H, sib, u, i, h) == Climb(H, bis, v, i, h)
    ensures u == v && sib[..h] == bis[..h]
    decreases h
  {
    if h > 0 {
      var c, d := Climb(H, sib, u, i, h - 1), Climb(H, bis, v, i, h - 1);
      if IsRight(i, h - 1) {
        Parts(H, sib[h - 1], c, bis[h - 1], d);
      } else {
        Parts(H, c, sib[h - 1], d, bis[h - 1]);
      }
      ClimbBinds(H, sib, bis, u, v, i, h - 1);
      assert sib[..h] == sib[..h - 1] + [sib[h - 1]];
      assert bis[..h] == bis[..h - 1] + [bis[h - 1]];
    }
  }

  /** With a collision-free hash equal nodes at one position have equal leaves below it. */
  lemma {:induction false} NodeBinds(H: Hasher, m: Leaves, n: Leaves, h: nat, p: nat, i: nat)
    requires Injective(H) && Node(H, m, h, p) == Node(H, n, h, p) && Up(i, h) == p
    ensures LeafAt(m, i) == LeafAt(n, i)
    decreases h
  {
    if h > 0 {
      var q := Up(i, h - 1);
      assert q == 2 * p || q == 2 * p + 1;
      NodeBinds(H, m, n, h - 1, q, i);
    }
  }

  /** The first leaf below position p of level h. */
  function FirstLeaf(h: nat, p: nat): nat
    decreases h
  {
    if h == 0 then p else FirstLeaf(h - 1, 2 * p)
  }

  lemma {:induction false} FirstLeafIsFirst(h: nat, p: nat, i: nat)
    requires Up(i, h) == p
    ensures Up(FirstLeaf(h, p), h) == p && FirstLeaf(h, p) <= i
    decreases h
  {
    if h > 0 {
      FirstLeafAtMost(h - 1, 2 * p, Up(i, h - 1));
      FirstLeafIsFirst(h - 1, Up(i, h - 1), i);
      FirstLeafUp(h - 1, 2 * p);
    }
  }

  lemma {:induction false} FirstLeafUp(h: nat, p: nat)
    ensures Up(FirstLeaf(h, p), h) == p
    decreases h
  {
    if h > 0 {
      FirstLeafUp(h - 1, 2 * p);
    }
  }

  lemma {:induction false} FirstLeafAtMost(h: nat, p: nat, q: nat)
    requires p <= q
    ensures FirstLeaf(h, p) <= FirstLeaf(h, q)
    decreases h
  {
    if h > 0 {
      FirstLeafAtMost(h - 1, 2 * p, 2 * q);
    }
  }

  /** With a collision-free hash equal nodes, wherever they are, start with the same leaf. */
  lemma {:induction false} NodeBindsFirst(H: Hasher, m: Leaves, n: Leaves, h: nat, p: nat, q: nat)
    requires Injective(H) && Node(H, m, h, p) == Node(H, n, h, q)
    ensures LeafAt(m, FirstLeaf(h, p)) == LeafAt(n, FirstLeaf(h, q))
    decreases h
  {
    if h > 0 {
      NodeBindsFirst(H, m, n, h - 1, 2 * p, 2 * q);
    }
  }

  /** With a collision-free hash the root determines the leaves below 2^height. */
  lemma RootBinds(H: Hasher, m: Leaves, n: Leaves, height: nat, i: nat)
    requires Injective(H) && Root(H, m, height) == Root(H, n, height) && i < Pow2(height)
    ensures LeafAt(m, i) == LeafAt(n, i)
  {
    UpIsZero(i, height);
    NodeBinds(H, m, n, height, 0, i);
  }
}
