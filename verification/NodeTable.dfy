/**
 The two tables under every persisted tree: the content-addressed node table (the RHT), from which
 nothing is ever deleted, and the table of roots, from which a reorg deletes whole blocks.
 */
module NodeTable {
  import opened Merkle
  import opened Wrappers
  import B = BlockRows

  type Pair = (Hash, Hash)

  /** hash -> (left, right) */
  type Rht = map<Hash, Pair>

  datatype RootRow = RootRow(hash: Hash, index: nat, block: nat, pos: nat)

  datatype Db = Db(rht: Rht, roots: seq<RootRow>)

  // ----- the hypothesis on the hash function -----

  ghost predicate Addressed(H: Hasher, rht: Rht) {
    forall k :: k in rht ==> H(rht[k].0, rht[k].1) == k
  }

  ghost predicate CollisionFree(H: Hasher, nodes: set<Pair>) {
    forall a, b {:trigger H(a.0, a.1), H(b.0, b.1)} :: a in nodes && b in nodes && H(a.0, a.1) == H(b.0, b.1) ==> a == b
  }

  ghost function ZeroNodes(H: Hasher, height: nat): set<Pair> {
    set h: nat | h < height :: (Zero(H, h), Zero(H, h))
  }

  ghost function Members(nodes: seq<Pair>): set<Pair> {
    set n | n in nodes
  }

  /** No two of the stored nodes, the nodes about to be stored and the empty subtrees share a hash. */
  ghost predicate Clean(H: Hasher, height: nat, rht: Rht, nodes: seq<Pair>) {
    CollisionFree(H, rht.Values + Members(nodes) + ZeroNodes(H, height))
  }

  lemma InjectiveClean(H: Hasher, height: nat, rht: Rht, nodes: seq<Pair>)
    requires Injective(H)
    ensures Clean(H, height, rht, nodes)
  {
    forall a: Pair, b: Pair {:trigger H(a.0, a.1), H(b.0, b.1)} | H(a.0, a.1) == H(b.0, b.1)
      ensures a == b
    {
      Parts(H, a.0, a.1, b.0, b.1);
    }
  }

  ghost predicate Sound(H: Hasher, height: nat, rht: Rht) {
    Addressed(H, rht) && Clean(H, height, rht, [])
  }

  ghost predicate EmptyNode(H: Hasher, rht: Rht, h: nat) {
    Zero(H, h + 1) in rht ==> rht[Zero(H, h + 1)] == (Zero(H, h), Zero(H, h))
  }

  /** If the hash of an empty subtree is in the table at all, it is there as an empty subtree. */
  ghost predicate EmptyNodes(H: Hasher, height: nat, rht: Rht) {
    forall h: nat {:trigger EmptyNode(H, rht, h)} :: h < height ==> EmptyNode(H, rht, h)
  }

  lemma SoundEmptyNodes(H: Hasher, height: nat, rht: Rht)
    requires Sound(H, height, rht)
    ensures EmptyNodes(H, height, rht)
  {}

  // ----- storing nodes -----

  /** An insert that skips a hash already in the table. */
  function Put(H: Hasher, rht: Rht, n: Pair): Rht {
    if H(n.0, n.1) in rht then rht else rht[H(n.0, n.1) := n]
  }

  function PutAll(H: Hasher, rht: Rht, nodes: seq<Pair>): Rht {
    if nodes == [] then rht else Put(H, PutAll(H, rht, nodes[..|nodes| - 1]), nodes[|nodes| - 1])
  }

  ghost predicate Extends(rht: Rht, old_: Rht) {
    forall k :: k in old_ ==> k in rht && rht[k] == old_[k]
  }

  lemma {:induction false} PutAllExtends(H: Hasher, rht: Rht, nodes: seq<Pair>)
    requires Addressed(H, rht)
    ensures Addressed(H, PutAll(H, rht, nodes)) && Extends(PutAll(H, rht, nodes), rht)
    ensures PutAll(H, rht, nodes).Values <= rht.Values + Members(nodes)
  {
    if nodes != [] {
      PutAllExtends(H, rht, nodes[..|nodes| - 1]);
      var sofar, last := PutAll(H, rht, nodes[..|nodes| - 1]), nodes[|nodes| - 1];
      forall v | v in Put(H, sofar, last).Values
        ensures v in rht.Values + Members(nodes)
      {
        assert v == last || v in sofar.Values;
      }
    }
  }

  lemma {:induction false} PutAllKeys(H: Hasher, rht: Rht, nodes: seq<Pair>, n: Pair)
    requires n in nodes
    ensures H(n.0, n.1) in PutAll(H, rht, nodes)
  {
    var last := |nodes| - 1;
    if n != nodes[last] {
      assert nodes == nodes[..last] + [nodes[last]];
      PutAllKeys(H, rht, nodes[..last], n);
    }
  }

  /** Under the hypothesis every node put in the table is found under its hash. */
  lemma PutAllFinds(H: Hasher, height: nat, rht: Rht, nodes: seq<Pair>, n: Pair)
    requires Addressed(H, rht) && Clean(H, height, rht, nodes) && n in nodes
    ensures H(n.0, n.1) in PutAll(H, rht, nodes) && PutAll(H, rht, nodes)[H(n.0, n.1)] == n
  {
    PutAllExtends(H, rht, nodes);
    PutAllKeys(H, rht, nodes, n);
    var found := PutAll(H, rht, nodes)[H(n.0, n.1)];
    assert found in PutAll(H, rht, nodes).Values;
    assert found in rht.Values + Members(nodes) && n in Members(nodes);
  }

  lemma PutAllSound(H: Hasher, height: nat, rht: Rht, nodes: seq<Pair>)
    requires Addressed(H, rht) && Clean(H, height, rht, nodes)
    ensures Sound(H, height, PutAll(H, rht, nodes))
  {
    PutAllExtends(H, rht, nodes);
  }

  method StoreNodes(H: Hasher, rht: Rht, nodes: seq<Pair>) returns (r: Rht)
    ensures r == PutAll(H, rht, nodes)
  {
    r := rht;
    for i := 0 to |nodes|
      invariant r == PutAll(H, rht, nodes[..i])
    {
      if H(nodes[i].0, nodes[i].1) !in r {
        r := r[H(nodes[i].0, nodes[i].1) := nodes[i]];
      }
      assert nodes[..i + 1][..i] == nodes[..i];
    }
    assert nodes[..|nodes|] == nodes;
  }

  // ----- a tree that can be read back from the table -----

  /** The node of height h + 1 at position p is in the table with its two children. */
  ghost predicate HasNode(H: Hasher, rht: Rht, m: Leaves, h: nat, p: nat) {
    && Node(H, m, h + 1, p) in rht
    && rht[Node(H, m, h + 1, p)] == (Node(H, m, h, 2 * p), Node(H, m, h, 2 * p + 1))
  }

  /** Every node above a leaf of m, from position p of level h down, is in the table with its children. */
  ghost predicate Stored(H: Hasher, rht: Rht, m: Leaves, h: nat, p: nat)
    decreases h
  {
    || h == 0
    || Vacant(m, h, p)
    || (&& HasNode(H, rht, m, h - 1, p)
        && Stored(H, rht, m, h - 1, 2 * p)
        && Stored(H, rht, m, h - 1, 2 * p + 1))
  }

  lemma HasNodeFrame(H: Hasher, rht: Rht, m: Leaves, n: Leaves, h: nat, p: nat)
    requires HasNode(H, rht, m, h, p) && SameBelow(m, n, h + 1, p)
    ensures HasNode(H, rht, n, h, p)
    ensures SameBelow(m, n, h, 2 * p) && SameBelow(m, n, h, 2 * p + 1)
  {
    hide SameBelow, Node;
    SameBelowChild(m, n, h, p, 2 * p);
    SameBelowChild(m, n, h, p, 2 * p + 1);
    NodeFrame(H, m, n, h + 1, p);
    NodeFrame(H, m, n, h, 2 * p);
    NodeFrame(H, m, n, h, 2 * p + 1);
  }

  lemma {:induction false} StoredExtends(H: Hasher, rht: Rht, more: Rht, m: Leaves, h: nat, p: nat)
    requires Stored(H, rht, m, h, p) && Extends(more, rht)
    ensures Stored(H, more, m, h, p)
    decreases h
  {
    if h > 0 && !Vacant(m, h, p) {
      StoredExtends(H, rht, more, m, h - 1, 2 * p);
      StoredExtends(H, rht, more, m, h - 1, 2 * p + 1);
    }
  }

  lemma {:induction false} StoredFrame(H: Hasher, rht: Rht, m: Leaves, n: Leaves, h: nat, p: nat)
    requires Stored(H, rht, m, h, p) && SameBelow(m, n, h, p)
    ensures Stored(H, rht, n, h, p)
    decreases h
  {
    if h > 0 && !Vacant(n, h, p) {
      HasNodeFrame(H, rht, m, n, h - 1, p);
      StoredFrame(H, rht, m, n, h - 1, 2 * p);
      StoredFrame(H, rht, m, n, h - 1, 2 * p + 1);
    }
  }

  lemma StoredChild(H: Hasher, rht: Rht, m: Leaves, h: nat, p: nat, q: nat)
    requires Stored(H, rht, m, h + 1, p) && q / 2 == p
    ensures Stored(H, rht, m, h, q)
  {}

  lemma StoredParent(H: Hasher, rht: Rht, m: Leaves, h: nat, q: nat)
    requires HasNode(H, rht, m, h, q / 2) && Stored(H, rht, m, h, q) && Stored(H, rht, m, h, Sibling(q))
    ensures Stored(H, rht, m, h + 1, q / 2)
  {
    assert q == 2 * (q / 2) + q % 2;
  }

  // ----- writing a path -----

  /** The node written at level h + 1 on the way up from leaf i. */
  function PathNode(H: Hasher, sib: seq<Hash>, leaf: Hash, i: nat, h: nat): Pair
    requires h < |sib|
  {
    if IsRight(i, h) then (sib[h], Climb(H, sib, leaf, i, h)) else (Climb(H, sib, leaf, i, h), sib[h])
  }

  function Path(H: Hasher, sib: seq<Hash>, leaf: Hash, i: nat, h: nat): (r: seq<Pair>)
    requires h <= |sib|
    ensures |r| == h
    ensures forall k: nat {:trigger r[k]} :: k < h ==> r[k] == PathNode(H, sib, leaf, i, k)
  {
    if h == 0 then [] else Path(H, sib, leaf, i, h - 1) + [PathNode(H, sib, leaf, i, h - 1)]
  }

  /** A written node sits under the hash of its level, with the children of the tree with the leaf set. */
  lemma PathNodeIs(H: Hasher, m: Leaves, sib: seq<Hash>, i: nat, v: Hash, h: nat)
    requires h < |sib| && SiblingsOf(H, m, sib, i)
    ensures var p := Up(i, h + 1);
            PathNode(H, sib, v, i, h) == (Node(H, m[i := v], h, 2 * p), Node(H, m[i := v], h, 2 * p + 1))
  {
    var q := Up(i, h);
    ClimbInsert(H, m, sib, i, v, h);
    NodeElsewhere(H, m, i, v, h, Sibling(q));
    assert q == 2 * (q / 2) + q % 2;
  }

  /** Once a path is written, the whole tree with the new leaf can be read back. */
  lemma {:induction false} PathStores(
    H: Hasher, rht: Rht, more: Rht, m: Leaves, sib: seq<Hash>, i: nat, v: Hash, h: nat)
    requires h <= |sib| && SiblingsOf(H, m, sib, i)
    requires Stored(H, rht, m, h, Up(i, h)) && Extends(more, rht)
    requires forall k: nat {:trigger PathNode(H, sib, v, i, k)} :: k < h ==>
               var n := PathNode(H, sib, v, i, k); H(n.0, n.1) in more && more[H(n.0, n.1)] == n
    ensures Stored(H, more, m[i := v], h, Up(i, h))
    decreases h
  {
    if h > 0 {
      StoredChild(H, rht, m, h - 1, Up(i, h), Up(i, h - 1));
      PathStores(H, rht, more, m, sib, i, v, h - 1);
      PathNodeIs(H, m, sib, i, v, h - 1);
      SiblingStays(H, rht, more, m, i, v, h - 1);
      StoredParent(H, more, m[i := v], h - 1, Up(i, h - 1));
    }
  }

  lemma SiblingStays(H: Hasher, rht: Rht, more: Rht, m: Leaves, i: nat, v: Hash, h: nat)
    requires Stored(H, rht, m, h + 1, Up(i, h + 1)) && Extends(more, rht)
    ensures Stored(H, more, m[i := v], h, Sibling(Up(i, h)))
  {
    StoredChild(H, rht, m, h, Up(i, h + 1), Sibling(Up(i, h)));
    StoredExtends(H, rht, more, m, h, Sibling(Up(i, h)));
    StoredFrame(H, more, m, m[i := v], h, Sibling(Up(i, h)));
  }

  // ----- reading -----

  /** The siblings getSiblings collects from the node `cur` of level h down to leaf i. A hash that is
      not in the table is kept as it is while the empty subtree of each level below is collected. */
  function Siblings(H: Hasher, rht: Rht, cur: Hash, i: nat, h: nat): (sib: seq<Hash>)
    ensures |sib| == h
    decreases h
  {
    if h == 0 then []
    else if cur !in rht then Siblings(H, rht, cur, i, h - 1) + [Zero(H, h - 1)]
    else if IsRight(i, h - 1) then Siblings(H, rht, rht[cur].1, i, h - 1) + [rht[cur].0]
    else Siblings(H, rht, rht[cur].0, i, h - 1) + [rht[cur].1]
  }

  /** The leaf GetLeaf finds under the node `cur` of level h, or None when a node is missing. */
  function Lookup(rht: Rht, cur: Hash, i: nat, h: nat): Option<Hash>
    decreases h
  {
    if h == 0 then Some(cur)
    else if cur !in rht then None
    else Lookup(rht, if IsRight(i, h - 1) then rht[cur].1 else rht[cur].0, i, h - 1)
  }

  lemma {:induction false} SiblingsMissing(H: Hasher, rht: Rht, cur: Hash, i: nat, h: nat, k: nat)
    requires cur !in rht && k < h
    ensures Siblings(H, rht, cur, i, h)[k] == Zero(H, k)
    decreases h
  {
    if k < h - 1 {
      SiblingsMissing(H, rht, cur, i, h - 1, k);
    }
  }

  /** Where a stored tree has no leaf, every sibling on the way down is an empty subtree. */
  lemma {:induction false} VacantSibling(H: Hasher, m: Leaves, i: nat, h: nat, k: nat)
    requires Vacant(m, h, Up(i, h)) && k < h
    ensures Node(H, m, k, Sibling(Up(i, k))) == Zero(H, k)
    decreases h
  {
    var q := Up(i, h - 1);
    VacantChild(m, h - 1, Up(i, h), q);
    VacantChild(m, h - 1, Up(i, h), Sibling(q));
    if k == h - 1 {
      NodeVacant(H, m, k, Sibling(q));
    } else {
      VacantSibling(H, m, i, h - 1, k);
    }
  }

  /** The node found for a level has the children of the tree, whether the level is occupied or empty. */
  lemma ReadNode(H: Hasher, height: nat, rht: Rht, m: Leaves, h: nat, p: nat)
    requires EmptyNodes(H, height, rht) && h < height && Stored(H, rht, m, h + 1, p) && Node(H, m, h + 1, p) in rht
    ensures HasNode(H, rht, m, h, p)
  {
    if Vacant(m, h + 1, p) {
      NodeVacant(H, m, h + 1, p);
      VacantChild(m, h, p, 2 * p);
      VacantChild(m, h, p, 2 * p + 1);
      NodeVacant(H, m, h, 2 * p);
      NodeVacant(H, m, h, 2 * p + 1);
      assert EmptyNode(H, rht, h);
    }
  }

  /** One turn of getSiblings and of GetLeaf at a node that is in the table. */
  lemma ReadStep(H: Hasher, rht: Rht, m: Leaves, i: nat, h: nat)
    requires HasNode(H, rht, m, h, Up(i, h + 1))
    ensures Siblings(H, rht, Node(H, m, h + 1, Up(i, h + 1)), i, h + 1)
            == Siblings(H, rht, Node(H, m, h, Up(i, h)), i, h) + [Node(H, m, h, Sibling(Up(i, h)))]
    ensures Lookup(rht, Node(H, m, h + 1, Up(i, h + 1)), i, h + 1) == Lookup(rht, Node(H, m, h, Up(i, h)), i, h)
  {
    var q := Up(i, h);
    assert q == 2 * (q / 2) + q % 2;
  }

  lemma SiblingsOfPush(H: Hasher, m: Leaves, sib: seq<Hash>, i: nat, x: Hash)
    requires SiblingsOf(H, m, sib, i) && x == Node(H, m, |sib|, Sibling(Up(i, |sib|)))
    ensures SiblingsOf(H, m, sib + [x], i)
  {}

  lemma MissingRead(H: Hasher, rht: Rht, m: Leaves, cur: Hash, i: nat, h: nat)
    requires cur !in rht && Vacant(m, h, Up(i, h))
    ensures SiblingsOf(H, m, Siblings(H, rht, cur, i, h), i)
  {
    forall k: nat | k < h
      ensures Siblings(H, rht, cur, i, h)[k] == Node(H, m, k, Sibling(Up(i, k)))
    {
      SiblingsMissing(H, rht, cur, i, h, k);
      VacantSibling(H, m, i, h, k);
    }
  }

  /** getSiblings, started at a stored tree, returns the siblings of that tree. */
  lemma {:induction false} SiblingsRead(H: Hasher, height: nat, rht: Rht, m: Leaves, cur: Hash, i: nat, h: nat)
    requires EmptyNodes(H, height, rht) && h <= height && Stored(H, rht, m, h, Up(i, h))
             && cur == Node(H, m, h, Up(i, h))
    ensures SiblingsOf(H, m, Siblings(H, rht, cur, i, h), i)
    decreases h
  {
    hide Node;
    if h > 0 {
      if cur !in rht {
        MissingRead(H, rht, m, cur, i, h);
      } else {
        var next := Node(H, m, h - 1, Up(i, h - 1));
        ReadNode(H, height, rht, m, h - 1, Up(i, h));
        ReadStep(H, rht, m, i, h - 1);
        StoredChild(H, rht, m, h - 1, Up(i, h), Up(i, h - 1));
        SiblingsRead(H, height, rht, m, next, i, h - 1);
        SiblingsOfPush(H, m, Siblings(H, rht, next, i, h - 1), i, Node(H, m, h - 1, Sibling(Up(i, h - 1))));
      }
    }
  }

  lemma SiblingsOfStored(H: Hasher, height: nat, rht: Rht, m: Leaves, i: nat)
    requires EmptyNodes(H, height, rht) && Stored(H, rht, m, height, 0) && i < Pow2(height)
    ensures SiblingsOf(H, m, Siblings(H, rht, Root(H, m, height), i, height), i)
  {
    UpIsZero(i, height);
    SiblingsRead(H, height, rht, m, Root(H, m, height), i, height);
  }

  /** GetLeaf, started at a stored tree, finds every leaf of it and never another value. */
  lemma {:induction false} LookupReads(H: Hasher, height: nat, rht: Rht, m: Leaves, cur: Hash, i: nat, h: nat)
    requires EmptyNodes(H, height, rht) && h <= height && Stored(H, rht, m, h, Up(i, h))
             && cur == Node(H, m, h, Up(i, h))
    ensures Lookup(rht, cur, i, h) == Some(LeafAt(m, i)) || (i !in m && Lookup(rht, cur, i, h) == None)
    decreases h
  {
    hide Node;
    if h == 0 {
      NodeLeaf(H, m, i);
    } else {
      if cur !in rht {
        assert Vacant(m, h, Up(i, h));
      } else {
        ReadNode(H, height, rht, m, h - 1, Up(i, h));
        ReadStep(H, rht, m, i, h - 1);
        StoredChild(H, rht, m, h - 1, Up(i, h), Up(i, h - 1));
        LookupReads(H, height, rht, m, Node(H, m, h - 1, Up(i, h - 1)), i, h - 1);
      }
    }
  }

  /** getSiblings: the loop from the root to the leaves. */
  method GetSiblings(H: Hasher, rht: Rht, zeroHashes: seq<Hash>, index: nat, root: Hash, height: nat)
    returns (siblings: seq<Hash>, hasUsedZeroHashes: bool)
    requires |zeroHashes| == height + 1
    requires forall h: nat {:trigger zeroHashes[h]} :: h <= height ==> zeroHashes[h] == Zero(H, h)
    ensures siblings == Siblings(H, rht, root, index, height)
    ensures !hasUsedZeroHashes ==> height == 0 || Lookup(rht, root, index, height).Some?
  {
    siblings, hasUsedZeroHashes := [], false;
    var currentNodeHash := root;
    var h := height;
    while h > 0
      invariant 0 <= h <= height && |siblings| == height - h
      invariant Siblings(H, rht, currentNodeHash, index, h) + siblings == Siblings(H, rht, root, index, height)
      invariant !hasUsedZeroHashes ==> Lookup(rht, currentNodeHash, index, h) == Lookup(rht, root, index, height)
    {
      h := h - 1;
      if currentNodeHash !in rht {
        hasUsedZeroHashes := true;
        siblings := [zeroHashes[h]] + siblings;
      } else if IsRight(index, h) {
        siblings := [rht[currentNodeHash].0] + siblings;
        currentNodeHash := rht[currentNodeHash].1;
      } else {
        siblings := [rht[currentNodeHash].1] + siblings;
        currentNodeHash := rht[currentNodeHash].0;
      }
    }
  }

  method GetLeaf(rht: Rht, index: nat, root: Hash, height: nat) returns (leaf: Option<Hash>)
    ensures leaf == Lookup(rht, root, index, height)
  {
    var currentNodeHash := root;
    var h := height;
    while h > 0
      invariant 0 <= h <= height
      invariant Lookup(rht, currentNodeHash, index, h) == Lookup(rht, root, index, height)
    {
      h := h - 1;
      if currentNodeHash !in rht {
        return None;
      }
      if IsRight(index, h) {
        currentNodeHash := rht[currentNodeHash].1;
      } else {
        currentNodeHash := rht[currentNodeHash].0;
      }
    }
    return Some(currentNodeHash);
  }

  // ----- the table of roots -----

  predicate Before(a: RootRow, b: RootRow) {
    a.block < b.block || (a.block == b.block && a.pos < b.pos)
  }

  /** r may be the row that `ORDER BY block_num DESC, block_position DESC LIMIT 1` returns. */
  ghost predicate MayBeLast(roots: seq<RootRow>, r: RootRow) {
    r in roots && forall x :: x in roots ==> !Before(r, x)
  }

  /** What the query may answer: on rows with the same block and position, any of them. */
  ghost predicate Legal(roots: seq<RootRow>, last: Option<RootRow>) {
    if roots == [] then last.None? else last.Some? && MayBeLast(roots, last.value)
  }

  /** The row written last. */
  function Newest(roots: seq<RootRow>): Option<RootRow> {
    if roots == [] then None else Some(roots[|roots| - 1])
  }

  /** Every other row is strictly before the row written last. */
  ghost predicate Certain(roots: seq<RootRow>) {
    roots == [] || var last := roots[|roots| - 1]; forall x :: x in roots ==> x == last || Before(x, last)
  }

  /** The query returns the newest row for certain exactly when every other row is strictly before it. */
  lemma LastIsNewestIff(roots: seq<RootRow>)
    ensures (forall last :: Legal(roots, last) ==> last == Newest(roots)) <==> Certain(roots)
  {
    if roots != [] {
      var last := roots[|roots| - 1];
      if Certain(roots) {
        forall o | Legal(roots, o)
          ensures o == Newest(roots)
        {
          assert last in roots && !Before(o.value, last);
        }
      } else {
        var r := OtherLast(roots);
        assert Legal(roots, Some(r));
      }
    }
  }

  /** Otherwise another row may be returned. */
  lemma OtherLast(roots: seq<RootRow>) returns (r: RootRow)
    requires !Certain(roots)
    ensures MayBeLast(roots, r) && r != roots[|roots| - 1]
  {
    var last := roots[|roots| - 1];
    r := Greatest(roots);
    assert last in roots;
    if r == last {
      var y :| y in roots && y != last && !Before(y, last);
      forall z | z in roots
        ensures !Before(y, z)
      {
        assert !Before(last, z) && !Before(last, y);
      }
      r := y;
    }
  }

  lemma {:induction false} Greatest(roots: seq<RootRow>) returns (r: RootRow)
    requires roots != []
    ensures MayBeLast(roots, r)
  {
    var last := roots[|roots| - 1];
    if |roots| == 1 {
      r := last;
    } else {
      var g := Greatest(roots[..|roots| - 1]);
      r := if Before(g, last) then last else g;
      assert roots == roots[..|roots| - 1] + [last];
    }
  }

  /** Rows at strictly growing (block, position). */
  ghost predicate Ordered(roots: seq<RootRow>) {
    forall a: nat, b: nat {:trigger roots[a], roots[b]} :: a < b < |roots| ==> Before(roots[a], roots[b])
  }

  lemma OrderedIsCertain(roots: seq<RootRow>)
    requires Ordered(roots)
    ensures Certain(roots) && InBlockOrder(roots)
  {}

  lemma OrderedPush(roots: seq<RootRow>, row: RootRow)
    requires Ordered(roots) && (roots != [] ==> Before(roots[|roots| - 1], row))
    ensures Ordered(roots + [row])
  {
    var more := roots + [row];
    forall a: nat, b: nat {:trigger more[a], more[b]} | a < b < |more|
      ensures Before(more[a], more[b])
    {
      if b == |roots| && a < |roots| - 1 {
        assert Before(roots[a], roots[|roots| - 1]);
      }
    }
  }

  method GetLastRoot(roots: seq<RootRow>) returns (r: Option<RootRow>)
    ensures Legal(roots, r)
  {
    r := None;
    for i := 0 to |roots|
      invariant Legal(roots[..i], r)
    {
      if r.None? || Before(r.value, roots[i]) {
        r := Some(roots[i]);
      }
      assert roots[..i + 1] == roots[..i] + [roots[i]];
    }
    assert roots[..|roots|] == roots;
  }

  function BlockOf(r: RootRow): nat {
    r.block
  }

  ghost predicate InBlockOrder(roots: seq<RootRow>) {
    B.Rising(roots, BlockOf)
  }

  /** `DELETE FROM root WHERE block_num >= b` */
  function DeleteFrom(roots: seq<RootRow>, b: nat): (r: seq<RootRow>) {
    B.Keep(roots, BlockOf, b)
  }

  /** On a table in block order the delete cuts a suffix. */
  lemma DeleteCuts(roots: seq<RootRow>, b: nat)
    requires InBlockOrder(roots)
    ensures |DeleteFrom(roots, b)| <= |roots| && DeleteFrom(roots, b) == roots[..|DeleteFrom(roots, b)|]
    ensures forall k: nat {:trigger roots[k]} :: k < |roots| ==> (k < |DeleteFrom(roots, b)| <==> roots[k].block < b)
  {
    hide B.Keep;
    B.KeepCuts(roots, BlockOf, b);
  }

  predicate HasRoot(roots: seq<RootRow>, hash: Hash) {
    exists k: nat :: k < |roots| && roots[k].hash == hash
  }

  // ----- the invariant of both trees -----

  /** Row k is the root of the leaves hist[k], and that tree can be read back from the node table. */
  ghost predicate Holds(H: Hasher, height: nat, db: Db, hist: seq<Leaves>) {
    && Sound(H, height, db.rht)
    && InBlockOrder(db.roots)
    && |hist| == |db.roots|
    && (forall k: nat {:trigger hist[k]} :: k < |hist| ==>
          db.roots[k].hash == Root(H, hist[k], height) && Stored(H, db.rht, hist[k], height, 0))
  }

  ghost function Current(hist: seq<Leaves>): Leaves {
    if hist == [] then map[] else hist[|hist| - 1]
  }

  lemma CurrentStored(H: Hasher, height: nat, db: Db, hist: seq<Leaves>)
    requires Holds(H, height, db, hist)
    ensures Stored(H, db.rht, Current(hist), height, 0)
    ensures (if db.roots == [] then Zero(H, height) else db.roots[|db.roots| - 1].hash)
            == Root(H, Current(hist), height)
  {
    if hist == [] {
      NodeVacant(H, map[], height, 0);
    }
  }

  /** The database after a path has been written and its root recorded. */
  function Written(H: Hasher, db: Db, sib: seq<Hash>, row: RootRow, leaf: Hash): Db {
    Db(PutAll(H, db.rht, Path(H, sib, leaf, row.index, |sib|)), db.roots + [row])
  }

  /** Writing the path of a leaf takes the table from one tree to the next, and keeps all earlier trees readable. */
  lemma WrittenHolds(H: Hasher, height: nat, db: Db, hist: seq<Leaves>, sib: seq<Hash>, row: RootRow, leaf: Hash)
    requires Holds(H, height, db, hist) && |sib| == height && row.index < Pow2(height)
    requires SiblingsOf(H, Current(hist), sib, row.index)
    requires Clean(H, height, db.rht, Path(H, sib, leaf, row.index, height))
    requires row.hash == Climb(H, sib, leaf, row.index, height)
    requires InBlockOrder(db.roots + [row])
    ensures Holds(H, height, Written(H, db, sib, row, leaf), hist + [Current(hist)[row.index := leaf]])
  {
    hide Node, Stored, Clean, PutAll, Climb, SiblingsOf, Pow2;
    var i, m := row.index, Current(hist);
    var nodes := Path(H, sib, leaf, i, height);
    var more := PutAll(H, db.rht, nodes);
    PutAllSound(H, height, db.rht, nodes);
    PutAllExtends(H, db.rht, nodes);
    CurrentStored(H, height, db, hist);
    UpIsZero(i, height);
    ClimbInsert(H, m, sib, i, leaf, height);
    forall k: nat {:trigger PathNode(H, sib, leaf, i, k)} | k < height
      ensures var n := PathNode(H, sib, leaf, i, k); H(n.0, n.1) in more && more[H(n.0, n.1)] == n
    {
      assert nodes[k] in nodes;
      PutAllFinds(H, height, db.rht, nodes, nodes[k]);
    }
    PathStores(H, db.rht, more, m, sib, i, leaf, height);
    forall k: nat | k < |hist|
      ensures Stored(H, more, hist[k], height, 0)
    {
      StoredExtends(H, db.rht, more, hist[k], height, 0);
    }
  }

  /** A reorg keeps the rows of earlier blocks and forgets the others; no node is deleted. */
  lemma ReorgHolds(H: Hasher, height: nat, db: Db, hist: seq<Leaves>, b: nat)
    requires Holds(H, height, db, hist)
    ensures Holds(H, height, Db(db.rht, DeleteFrom(db.roots, b)), hist[..|DeleteFrom(db.roots, b)|])
  {
    DeleteCuts(db.roots, b);
  }

  /** Any stored root can be proved and looked up, whatever has been written or deleted since. */
  lemma StoredRootsRead(H: Hasher, height: nat, db: Db, hist: seq<Leaves>, k: nat, i: nat)
    requires Holds(H, height, db, hist) && k < |hist| && i < Pow2(height)
    ensures var proof := Siblings(H, db.rht, db.roots[k].hash, i, height);
            SiblingsOf(H, hist[k], proof, i) && Climb(H, proof, LeafAt(hist[k], i), i, height) == db.roots[k].hash
    ensures var found := Lookup(db.rht, db.roots[k].hash, i, height);
            if i in hist[k] then found == Some(hist[k][i]) else found == None || found == Some(0)
  {
    SoundEmptyNodes(H, height, db.rht);
    SiblingsOfStored(H, height, db.rht, hist[k], i);
    ClimbToRoot(H, hist[k], Siblings(H, db.rht, db.roots[k].hash, i, height), i, height);
    UpIsZero(i, height);
    LookupReads(H, height, db.rht, hist[k], db.roots[k].hash, i, height);
  }
}
