/**
 The in-memory L1 info tree: a full rebuild, a proof builder and an incremental frontier.

 Leaf counts and indexes are 32-bit in the program, so `uint32(len(leaves))` is written out as a
 remainder. It differs from the length only for the two longest lists of a tree of height 32.
 */
module L1InfoTree {
  import opened Merkle
  import opened Wrappers

  datatype Result<+T> = Ok(value: T) | Error

  // ----- levels -----

  /** A level of even length, hashed in pairs. */
  function Pairs(H: Hasher, level: seq<Hash>): (r: seq<Hash>)
    requires |level| % 2 == 0
    ensures |r| == |level| / 2
    ensures forall p: nat :: p < |r| ==> r[p] == H(level[2 * p], level[2 * p + 1])
  {
    if level == [] then [] else
    var last := |level| - 2;
    Pairs(H, level[..last]) + [H(level[last], level[last + 1])]
  }

  /** level lists the nodes of height h from the left, and every node it does not reach is empty. */
  ghost predicate LevelOf(H: Hasher, m: Leaves, level: seq<Hash>, h: nat) {
    && (forall p: nat {:trigger level[p]} :: p < |level| ==> level[p] == Node(H, m, h, p))
    && (forall p: nat :: p >= |level| ==> Node(H, m, h, p) == Zero(H, h))
  }

  lemma LevelZero(H: Hasher, leaves: seq<Hash>)
    ensures LevelOf(H, Listed(leaves), leaves, 0)
    ensures leaves == [] ==> LevelOf(H, Listed(leaves), [0], 0)
  {}

  lemma LevelPadded(H: Hasher, m: Leaves, level: seq<Hash>, h: nat)
    requires LevelOf(H, m, level, h)
    ensures LevelOf(H, m, level + [Zero(H, h)], h)
  {}

  lemma LevelUp(H: Hasher, m: Leaves, level: seq<Hash>, h: nat)
    requires LevelOf(H, m, level, h) && |level| % 2 == 0
    ensures LevelOf(H, m, Pairs(H, level), h + 1)
  {
    forall p: nat {:trigger Node(H, m, h + 1, p)} | p >= |level| / 2
      ensures Node(H, m, h + 1, p) == Zero(H, h + 1)
    {
      assert Node(H, m, h, 2 * p) == Zero(H, h) && Node(H, m, h, 2 * p + 1) == Zero(H, h);
    }
  }

  /** Number of entries of level h above n leaves. */
  function Width(n: nat, h: nat): nat {
    if h == 0 then (if n == 0 then 1 else n) else (Width(n, h - 1) + 1) / 2
  }

  lemma {:induction false} WidthHalf(n: nat, h: nat)
    ensures Width(n, h + 1) == Width((n + 1) / 2, h)
  {
    if h > 0 {
      WidthHalf(n, h - 1);
    }
  }

  lemma {:induction false} WidthIsOne(n: nat, h: nat)
    ensures Width(n, h) == 1 <==> n <= Pow2(h)
  {
    if h > 0 {
      WidthHalf(n, h - 1);
      WidthIsOne((n + 1) / 2, h - 1);
    }
  }

  lemma {:induction false} WidthShrinks(n: nat, h: nat)
    requires n <= UINT32
    ensures 1 <= Width(n, h) <= UINT32
    ensures h >= 1 ==> Width(n, h) <= UINT32 / 2
  {
    if h > 0 {
      WidthShrinks(n, h - 1);
    }
  }

  method BuildIntermediate(H: Hasher, leaves: seq<Hash>) returns (hashes: seq<Hash>)
    requires |leaves| % 2 == 0
    ensures hashes == Pairs(H, leaves)
  {
    hashes := [];
    var i := 0;
    while i < |leaves|
      invariant i <= |leaves| && i % 2 == 0
      invariant hashes == Pairs(H, leaves[..i])
    {
      hashes := hashes + [H(leaves[i], leaves[i + 1])];
      assert leaves[..i + 2][..i] == leaves[..i];
      i := i + 2;
    }
    assert leaves[..i] == leaves;
  }

  /** Pads a level to an even length with its empty subtree and hashes it in pairs. */
  method NextLevel(H: Hasher, leaves: seq<Hash>, zeroHash: Hash, ghost m: Leaves, ghost h: nat)
    returns (padded: seq<Hash>, hashes: seq<Hash>)
    requires LevelOf(H, m, leaves, h) && zeroHash == Zero(H, h)
    ensures |padded| == 2 * |hashes| && |hashes| == (|leaves| + 1) / 2
    ensures LevelOf(H, m, padded, h) && LevelOf(H, m, hashes, h + 1)
  {
    padded := leaves;
    if |padded| % 2 == 1 {
      LevelPadded(H, m, padded, h);
      padded := padded + [zeroHash];
    }
    LevelUp(H, m, padded, h);
    hashes := BuildIntermediate(H, padded);
  }

  /** The full rebuild succeeds exactly on lists that fit, and then gives the zero-padded root. */
  method BuildL1InfoRoot(H: Hasher, height: nat, zeroHashes: seq<Hash>, initial: seq<Hash>)
    returns (r: Result<Hash>)
    requires |zeroHashes| == height + 1
    requires forall h: nat {:trigger zeroHashes[h]} :: h <= height ==> zeroHashes[h] == Zero(H, h)
    ensures r.Ok? <==> height >= 1 && |initial| <= Pow2(height)
    ensures r.Ok? ==> r.value == Root(H, Listed(initial), height)
  {
    var leaves := initial;
    LevelZero(H, initial);
    if |leaves| == 0 {
      leaves := leaves + [zeroHashes[0]];
    }
    for h := 0 to height
      invariant LevelOf(H, Listed(initial), leaves, h)
      invariant |leaves| == Width(|initial|, h)
    {
      var padded;
      padded, leaves := NextLevel(H, leaves, zeroHashes[h], Listed(initial), h);
    }
    WidthIsOne(|initial|, height);
    if height == 0 || |leaves| != 1 {
      return Error;
    }
    return Ok(leaves[0]);
  }

  // ----- proofs -----

  /** Padding the list to an even length makes its 32-bit length zero. */
  predicate LengthWraps(n: nat) {
    n == UINT32 - 1 || n == UINT32
  }

  /** One sibling the proof builder returns: that of the tree, save that a wrapped length hides level 0. */
  function ProofAt(H: Hasher, leaves: seq<Hash>, index: nat, k: nat): Hash {
    if k == 0 && LengthWraps(|leaves|) then 0 else Node(H, Listed(leaves), k, Sibling(Up(index, k)))
  }

  function ProofOf(H: Hasher, leaves: seq<Hash>, index: nat, height: nat): (sib: seq<Hash>)
    ensures |sib| == height
    ensures forall k: nat {:trigger sib[k]} :: k < height ==> sib[k] == ProofAt(H, leaves, index, k)
  {
    if height == 0 then [] else ProofOf(H, leaves, index, height - 1) + [ProofAt(H, leaves, index, height - 1)]
  }

  /** The sibling of p, as the proof builder picks it from a padded level. */
  lemma SiblingInLevel(H: Hasher, m: Leaves, level: seq<Hash>, h: nat, p: nat)
    requires LevelOf(H, m, level, h) && |level| % 2 == 0
    ensures Node(H, m, h, Sibling(p)) ==
            if p >= |level| then Zero(H, h) else if p % 2 == 1 then level[p - 1] else level[p + 1]
  {}

  method PickSibling(leaves: seq<Hash>, index: nat, zeroHash: Hash) returns (next: Hash)
    requires |leaves| % 2 == 0
    ensures next == if index >= Wrap32(|leaves|) then zeroHash
                    else if index % 2 == 1 then leaves[index - 1] else leaves[index + 1]
  {
    if index >= Wrap32(|leaves|) {
      next := zeroHash;
    } else if index % 2 == 1 {
      next := leaves[index - 1];
    } else {
      next := leaves[index + 1];
    }
  }

  /** The same with the 32-bit length, which hides a level only when the longest level wraps. */
  lemma PickedSibling(H: Hasher, initial: seq<Hash>, i: nat, level: seq<Hash>, h: nat)
    requires i < UINT32 && |initial| <= UINT32
    requires LevelOf(H, Listed(initial), level, h) && |level| % 2 == 0
    requires |level| == Width(|initial|, h) || |level| == Width(|initial|, h) + 1
    ensures ProofAt(H, initial, i, h) ==
            if Up(i, h) >= Wrap32(|level|) then Zero(H, h)
            else if Up(i, h) % 2 == 1 then level[Up(i, h) - 1] else level[Up(i, h) + 1]
  {
    hide Node, LevelOf, Sibling, Up;
    UpAtMost(i, h);
    WidthShrinks(|initial|, h);
    SiblingInLevel(H, Listed(initial), level, h, Up(i, h));
  }

  /** One turn of the proof builder: the sibling on this level, and the level above. */
  method ProofTurn(H: Hasher, zeroHash: Hash, leaves: seq<Hash>, index: nat,
                   ghost initial: seq<Hash>, ghost gerIndex: nat, ghost h: nat)
    returns (hashes: seq<Hash>, next: Hash)
    requires LevelOf(H, Listed(initial), leaves, h) && |leaves| == Width(|initial|, h) && zeroHash == Zero(H, h)
    requires gerIndex < UINT32 && index == Up(gerIndex, h)
    ensures LevelOf(H, Listed(initial), hashes, h + 1) && |hashes| == Width(|initial|, h + 1)
    ensures |initial| <= UINT32 ==> next == ProofAt(H, initial, gerIndex, h)
  {
    var padded;
    padded, hashes := NextLevel(H, leaves, zeroHash, Listed(initial), h);
    next := PickSibling(padded, index, zeroHash);
    if |initial| <= UINT32 {
      PickedSibling(H, initial, gerIndex, padded, h);
    }
  }

  method ComputeMerkleProof(H: Hasher, height: nat, zeroHashes: seq<Hash>, gerIndex: nat, initial: seq<Hash>)
    returns (r: Result<(seq<Hash>, Hash)>)
    requires |zeroHashes| == height + 1
    requires forall h: nat {:trigger zeroHashes[h]} :: h <= height ==> zeroHashes[h] == Zero(H, h)
    requires gerIndex < UINT32
    ensures r.Ok? <==> height >= 1 && |initial| <= Pow2(height)
    ensures r.Ok? ==> r.value.1 == Root(H, Listed(initial), height) && |r.value.0| == height
    ensures r.Ok? && |initial| <= UINT32 ==> r.value.0 == ProofOf(H, initial, gerIndex, height)
  {
    var leaves := initial;
    LevelZero(H, initial);
    if |leaves| == 0 {
      leaves := leaves + [zeroHashes[0]];
    }
    var siblings: seq<Hash>, index: nat := [], gerIndex;
    for h := 0 to height
      invariant LevelOf(H, Listed(initial), leaves, h)
      invariant |leaves| == Width(|initial|, h)
      invariant index == Up(gerIndex, h)
      invariant |siblings| == h
      invariant |initial| <= UINT32 ==> siblings == ProofOf(H, initial, gerIndex, h)
    {
      var next;
      leaves, next := ProofTurn(H, zeroHashes[h], leaves, index, initial, gerIndex, h);
      siblings := siblings + [next];
      index := index / 2;
    }
    WidthIsOne(|initial|, height);
    if height == 0 || |leaves| != 1 {
      return Error;
    }
    return Ok((siblings, leaves[0]));
  }

  /** Folding the built proof as CalculateRoot does gives the rebuilt root, for every index of the tree. */
  lemma ProofFolds(H: Hasher, leaves: seq<Hash>, i: nat, height: nat)
    requires !LengthWraps(|leaves|) && i < Pow2(height)
    ensures SiblingsOf(H, Listed(leaves), ProofOf(H, leaves, i, height), i)
    ensures Climb(H, ProofOf(H, leaves, i, height), LeafAt(Listed(leaves), i), i, height)
            == Root(H, Listed(leaves), height)
  {
    ClimbToRoot(H, Listed(leaves), ProofOf(H, leaves, i, height), i, height);
  }

  /** On a list whose length wraps, the proof of i folds to the root exactly when the leaf next to i is zero. */
  lemma WrappedProofFoldsIff(H: Hasher, leaves: seq<Hash>, i: nat, height: nat)
    requires Injective(H) && LengthWraps(|leaves|) && height >= 1 && i < Pow2(height)
    ensures Climb(H, ProofOf(H, leaves, i, height), LeafAt(Listed(leaves), i), i, height)
            == Root(H, Listed(leaves), height)
            <==> LeafAt(Listed(leaves), Sibling(i)) == 0
  {
    var m := Listed(leaves);
    var given := ProofOf(H, leaves, i, height);
    var right := given[0 := LeafAt(m, Sibling(i))];
    ClimbToRoot(H, m, right, i, height);
    if Climb(H, given, LeafAt(m, i), i, height) == Root(H, m, height) {
      ClimbBinds(H, given, right, LeafAt(m, i), LeafAt(m, i), i, height);
      assert given[..height][0] == right[..height][0];
    }
    if LeafAt(m, Sibling(i)) == 0 {
      assert given == right;
    }
  }

  function Ones(n: nat): (r: seq<Hash>)
    ensures |r| == n && forall k: nat {:trigger r[k]} :: k < n ==> r[k] == 1
  {
    seq(n, _ => 1)
  }

  lemma LongestFits(height: nat)
    requires height >= 32
    ensures UINT32 <= Pow2(height)
    decreases height
  {
    if height == 32 {
      assert Pow2(8) == 0x100 && Pow2(16) == 0x1_0000 && Pow2(24) == 0x100_0000;
    } else {
      LongestFits(height - 1);
    }
  }

  /** 2^32 - 1 ones: the proof of the first leaf does not fold to the root. */
  lemma WrappedProofFails(H: Hasher)
    requires Injective(H)
    ensures var leaves := Ones(UINT32 - 1);
            Climb(H, ProofOf(H, leaves, 0, 32), leaves[0], 0, 32) != Root(H, Listed(leaves), 32)
  {
    hide Climb, Root, ProofOf, Pow2, Injective, Listed;
    var leaves := Ones(UINT32 - 1);
    LongestFits(32);
    ListedAt(leaves, 0);
    ListedAt(leaves, 1);
    WrappedProofFoldsIff(H, leaves, 0, 32);
  }

  lemma ListedAt(leaves: seq<Hash>, i: nat)
    requires i < |leaves|
    ensures LeafAt(Listed(leaves), i) == leaves[i]
  {}

  // ----- the incremental tree -----

  datatype State = State(count: nat, siblings: seq<Hash>, root: Hash)

  /** The first level at or above h where the path of n is a left child. */
  function FirstLeft(n: nat, h: nat, height: nat): (t: nat)
    requires h <= height
    ensures h <= t <= height
    ensures t < height ==> !IsRight(n, t)
    ensures forall k: nat :: h <= k < t ==> IsRight(n, k)
    decreases height - h
  {
    if h == height || !IsRight(n, h) then h else FirstLeft(n, h + 1, height)
  }

  /** The first left child on the path is a complete subtree and is kept. */
  function NextSiblings(H: Hasher, siblings: seq<Hash>, n: nat, leaf: Hash): (r: seq<Hash>)
    ensures |r| == |siblings|
  {
    var met := Met(H, siblings, n);
    var t := FirstLeft(n, 0, |met|);
    if t == |met| then siblings else siblings[t := Climb(H, met, leaf, n, t)]
  }

  function Added(H: Hasher, s: State, leaf: Hash): State {
    State(
      Wrap32(s.count + 1),
      NextSiblings(H, s.siblings, s.count, leaf),
      Climb(H, Met(H, s.siblings, s.count), leaf, s.count, |s.siblings|))
  }

  ghost predicate Tracks(H: Hasher, s: State, leaves: seq<Hash>, height: nat) {
    && |s.siblings| == height
    && s.count == Wrap32(|leaves|)
    && s.root == Root(H, Listed(leaves), height)
    && Frontier(H, Listed(leaves), s.siblings, |leaves|)
  }

  /** Where the carry into n + 1 stops: n is a right child below and a left child there. */
  lemma {:induction false} CarryStops(n: nat, t: nat, h: nat)
    requires forall k: nat :: k < t ==> IsRight(n, k)
    ensures h <= t ==> Up(n + 1, h) == Up(n, h) + 1
    ensures h > t && !IsRight(n, t) ==> Up(n + 1, h) == Up(n, h)
  {
    if h > 0 {
      CarryStops(n, t, h - 1);
      if h <= t {
        assert IsRight(n, h - 1);
      }
    }
  }

  /** The kept siblings serve the next leaf: one is new, those above it have not moved. */
  lemma AddedFrontier(H: Hasher, m: Leaves, siblings: seq<Hash>, n: nat, leaf: Hash, h: nat)
    requires Frontier(H, m, siblings, n) && SiblingsOf(H, m, Met(H, siblings, n), n)
    requires h < |siblings| && IsRight(n + 1, h)
    ensures NextSiblings(H, siblings, n, leaf)[h] == Node(H, m[n := leaf], h, Up(n + 1, h) - 1)
  {
    var met := Met(H, siblings, n);
    var t := FirstLeft(n, 0, |met|);
    CarryStops(n, t, h);
    if h == t {
      ClimbInsert(H, m, met, n, leaf, t);
    } else if h > t {
      NodeElsewhere(H, m, n, leaf, h, Up(n, h) - 1);
    }
  }

  lemma AddedFrontiers(H: Hasher, m: Leaves, siblings: seq<Hash>, n: nat, leaf: Hash)
    requires Frontier(H, m, siblings, n) && SiblingsOf(H, m, Met(H, siblings, n), n)
    ensures Frontier(H, m[n := leaf], NextSiblings(H, siblings, n, leaf), n + 1)
  {
    forall h: nat | h < |siblings| && IsRight(n + 1, h)
      ensures NextSiblings(H, siblings, n, leaf)[h] == Node(H, m[n := leaf], h, Up(n + 1, h) - 1)
    {
      AddedFrontier(H, m, siblings, n, leaf, h);
    }
  }

  /** Adding a leaf moves the tree from `leaves` to `leaves` with that leaf at the end. */
  lemma AddedTracks(H: Hasher, s: State, leaves: seq<Hash>, leaf: Hash, height: nat)
    requires Tracks(H, s, leaves, height) && |leaves| < Pow2(height) && |leaves| < UINT32
    ensures Tracks(H, Added(H, s, leaf), leaves + [leaf], height)
  {
    hide Node, NextSiblings, Met, Climb, Frontier, SiblingsOf, Pow2;
    var n, m := |leaves|, Listed(leaves);
    ListedAppend(leaves, leaf);
    MetAreSiblings(H, leaves, s.siblings);
    AddedFrontiers(H, m, s.siblings, n, leaf);
    ClimbInsert(H, m, Met(H, s.siblings, n), n, leaf, height);
    UpIsZero(n, height);
  }

  function AddedAll(H: Hasher, s: State, rest: seq<Hash>): State {
    if rest == [] then s else Added(H, AddedAll(H, s, rest[..|rest| - 1]), rest[|rest| - 1])
  }

  /** The state NewL1InfoTree starts from. */
  function Initial(H: Hasher, leaves: seq<Hash>, height: nat): State {
    State(
      Wrap32(|leaves|),
      if Wrap32(|leaves|) == 0 then seq(height, h requires h >= 0 => Zero(H, h))
      else ProofOf(H, leaves, Wrap32(|leaves|), height),
      Root(H, Listed(leaves), height))
  }

  lemma InitialTracks(H: Hasher, leaves: seq<Hash>, height: nat)
    requires |leaves| < UINT32 - 1
    ensures Tracks(H, Initial(H, leaves, height), leaves, height)
  {
    var n := |leaves|;
    var s := Initial(H, leaves, height).siblings;
    forall h: nat | h < height && IsRight(n, h)
      ensures s[h] == Node(H, Listed(leaves), h, Up(n, h) - 1)
    {
      UpIsZero(0, h);
      assert n > 0;
      assert s[h] == ProofAt(H, leaves, n, h);
    }
  }

  /**
   Starting from any prefix and adding the rest one by one gives the root and the count of the whole
   list, which is also what BuildL1InfoRoot computes from it.
   */
  lemma {:induction false} IncrementalIsRebuild(H: Hasher, prefix: seq<Hash>, rest: seq<Hash>, height: nat)
    requires |prefix| < UINT32 - 1
    requires |prefix + rest| <= Pow2(height) && |prefix + rest| <= UINT32
    ensures Tracks(H, AddedAll(H, Initial(H, prefix, height), rest), prefix + rest, height)
    decreases |rest|
  {
    if rest == [] {
      InitialTracks(H, prefix, height);
      assert prefix + rest == prefix;
    } else {
      var butLast, last := rest[..|rest| - 1], rest[|rest| - 1];
      IncrementalIsRebuild(H, prefix, butLast, height);
      AddedTracks(H, AddedAll(H, Initial(H, prefix, height), butLast), prefix + butLast, last, height);
      assert prefix + butLast + [last] == prefix + rest;
    }
  }

  /** Started from 2^32 - 1 leaves, the next root is right exactly when the last of those leaves is zero. */
  lemma LongestPrefixAddsRightIff(H: Hasher, leaves: seq<Hash>, leaf: Hash, height: nat)
    requires Injective(H) && |leaves| == UINT32 - 1 && |leaves| < Pow2(height) && height >= 1
    ensures Added(H, Initial(H, leaves, height), leaf).root == Root(H, Listed(leaves + [leaf]), height)
            <==> leaves[|leaves| - 1] == 0
  {
    var n := |leaves|;
    var given := Initial(H, leaves, height).siblings;
    var right := given[0 := leaves[n - 1]];
    assert IsRight(n, 0) && given[0] == 0;
    forall h: nat | h < height && IsRight(n, h)
      ensures right[h] == Node(H, Listed(leaves), h, Up(n, h) - 1)
    {
      assert h > 0 ==> given[h] == ProofAt(H, leaves, n, h);
    }
    MetAreSiblings(H, leaves, right);
    ListedAppend(leaves, leaf);
    ClimbInsert(H, Listed(leaves), Met(H, right, n), n, leaf, height);
    UpIsZero(n, height);
    if Climb(H, Met(H, given, n), leaf, n, height) == Climb(H, Met(H, right, n), leaf, n, height) {
      ClimbBinds(H, Met(H, given, n), Met(H, right, n), leaf, leaf, n, height);
      assert Met(H, given, n)[..height][0] == Met(H, right, n)[..height][0];
    }
    if leaves[n - 1] == 0 {
      assert given == right;
    }
  }

  /** Started from as many ones, the tree gives a wrong root for every next leaf. */
  lemma LongestPrefixFails(H: Hasher, leaf: Hash)
    requires Injective(H)
    ensures var leaves := Ones(UINT32 - 1);
            Added(H, Initial(H, leaves, 32), leaf).root != Root(H, Listed(leaves + [leaf]), 32)
  {
    hide Root, Pow2, Injective, Initial, Added;
    LongestFits(32);
    LongestPrefixAddsRightIff(H, Ones(UINT32 - 1), leaf, 32);
  }

  class Tree {
    const H: Hasher
    const height: nat
    const zeroHashes: seq<Hash>
    var count: nat
    var siblings: array<Hash>
    var currentRoot: Hash

    ghost predicate Valid()
      reads this, siblings
    {
      && |zeroHashes| == height + 1
      && (forall h: nat {:trigger zeroHashes[h]} :: h <= height ==> zeroHashes[h] == Zero(H, h))
      && siblings.Length == height
      && count < UINT32
    }

    ghost function Now(): State
      reads this, siblings
    {
      State(count, siblings[..], currentRoot)
    }

    constructor (H: Hasher, height: nat, zeroHashes: seq<Hash>, s: State)
      requires |zeroHashes| == height + 1
      requires forall h: nat {:trigger zeroHashes[h]} :: h <= height ==> zeroHashes[h] == Zero(H, h)
      requires |s.siblings| == height && s.count < UINT32
      ensures Valid() && fresh(siblings) && Now() == s && this.H == H && this.height == height
    {
      this.H, this.height, this.zeroHashes := H, height, zeroHashes;
      count, currentRoot := s.count, s.root;
      siblings := new Hash[height](i requires 0 <= i < height => s.siblings[i]);
      new;
      assert siblings[..] == s.siblings;
    }

    /** NewL1InfoTree: fails exactly on lists that do not fit. */
    static method Create(H: Hasher, height: nat, initialLeaves: seq<Hash>) returns (r: Result<Tree>)
      ensures r.Ok? <==> height >= 1 && |initialLeaves| <= Pow2(height)
      ensures r.Ok? ==> fresh(r.value) && fresh(r.value.siblings) && r.value.Valid()
      ensures r.Ok? ==> r.value.H == H && r.value.height == height
      ensures r.Ok? && |initialLeaves| <= UINT32 ==> r.value.Now() == Initial(H, initialLeaves, height)
    {
      var zeroHashes := GenerateZeroHashes(H, height);
      var n := Wrap32(|initialLeaves|);
      var siblings: seq<Hash>, root: Hash;
      if n == 0 {
        var built := BuildL1InfoRoot(H, height, zeroHashes, initialLeaves);
        if built.Error? {
          return Error;
        }
        siblings, root := zeroHashes[..height], built.value;
        assert siblings == seq(height, h requires h >= 0 => Zero(H, h));
      } else {
        var built := ComputeMerkleProof(H, height, zeroHashes, n, initialLeaves);
        if built.Error? {
          return Error;
        }
        siblings, root := built.value.0, built.value.1;
      }
      var mt := new Tree(H, height, zeroHashes, State(n, siblings, root));
      return Ok(mt);
    }

    /** AddLeaf: refuses any index but the count, and otherwise takes one step of `Added`. */
    method AddLeaf(index: nat, leaf: Hash) returns (r: Result<Hash>)
      requires Valid()
      modifies this`count, this`currentRoot, siblings
      ensures Valid()
      ensures r.Ok? <==> index == old(count)
      ensures r.Error? ==> Now() == old(Now())
      ensures r.Ok? ==> Now() == Added(H, old(Now()), leaf) && r.value == currentRoot
    {
      hide Climb, Met, NextSiblings;
      if index != count {
        return Error;
      }
      var cur := Rise(index, leaf);
      currentRoot := cur;
      count := Wrap32(count + 1);
      return Ok(cur);
    }

    /** The loop of AddLeaf: up the path, keeping the first left child. */
    method Rise(index: nat, leaf: Hash) returns (cur: Hash)
      requires Valid()
      modifies siblings
      ensures cur == Climb(H, Met(H, old(siblings[..]), index), leaf, index, height)
      ensures siblings[..] == NextSiblings(H, old(siblings[..]), index, leaf)
    {
      hide Climb, Met, FirstLeft, Zero;
      ghost var kept := siblings[..];
      ghost var met := Met(H, kept, index);
      ghost var t := FirstLeft(index, 0, height);
      var isFilledSubTree, bits := true, index;
      cur := leaf;
      NoClimb(H, met, leaf, index);
      for h := 0 to height
        invariant bits == Up(index, h) && cur == Climb(H, met, leaf, index, h)
        invariant isFilledSubTree <==> h <= t
        invariant siblings[..] == if h <= t then kept else kept[t := Climb(H, met, leaf, index, t)]
      {
        ClimbMet(H, kept, leaf, index, h);
        assert IsRight(index, h) ==> siblings[h] == siblings[..][h] == kept[h];
        if bits % 2 == 1 {
          cur := H(siblings[h], cur);
        } else {
          if isFilledSubTree {
            siblings[h] := cur;
            isFilledSubTree := false;
          }
          cur := H(cur, zeroHashes[h]);
        }
        bits := bits / 2;
      }
    }
  }
}
