/** Leaves, and mmr::FileBackend without a prune list: the hash file and the leaf database under an MMR. */
module Backend {
  import opened Bits
  import opened Positions
  import opened Indices
  import opened Merkle

  /** The number of leaves up to which no 64-bit position wraps. */
  const MAX_LEAVES: nat := MAX_POSITION

  datatype Leaf = Leaf(index: nat, hash: Hash, data: Bytes)

  /** Leaf::Create */
  function CreateLeaf(index: nat, data: Bytes): Leaf {
    Leaf(index, LeafHash(LeafPos(index), data), data)
  }

  /** hashes[k] is the hash at position `from + k` of the range over the given leaves. */
  ghost predicate HashesMatch(hashes: seq<Hash>, from: nat, leaves: seq<Bytes>) {
    && from + |hashes| <= LeafPos(|leaves|)
    && forall k :: 0 <= k < |hashes| ==> hashes[k] == HashAt(leaves, from + k)
  }

  /** Hashes of positions below n leaves match every leaf list with the same first n leaves. */
  lemma MatchPrefix(hashes: seq<Hash>, from: nat, a: seq<Bytes>, b: seq<Bytes>, n: nat)
    requires HashesMatch(hashes, from, a) && from + |hashes| <= LeafPos(n)
    requires n <= |a| && n <= |b| && a[..n] == b[..n]
    ensures HashesMatch(hashes, from, b)
  {
    LeafPosMono(n, |b|);
    forall k | 0 <= k < |hashes| ensures hashes[k] == HashAt(b, from + k) {
      HashAtPrefix(a, b, n, from + k);
    }
  }

  /** Dropping the hashes at and after leaf n, along with the leaves. */
  lemma MatchTruncate(hashes: seq<Hash>, from: nat, a: seq<Bytes>, b: seq<Bytes>, n: nat)
    requires HashesMatch(hashes, from, a) && from <= LeafPos(n) <= from + |hashes|
    requires n <= |a| && n <= |b| && a[..n] == b[..n]
    ensures HashesMatch(hashes[..LeafPos(n) - from], from, b)
  {
    MatchPrefix(hashes[..LeafPos(n) - from], from, a, b, n);
  }

  // ---------- the walk from a new leaf to its highest completed ancestor ----------

  /** c is the new last leaf or an ancestor whose last leaf it is. */
  ghost predicate OnWalk(c: Coord, leaves: seq<Bytes>) {
    EndLeaf(c) == |leaves|
  }

  lemma WalkUp(c: Coord, leaves: seq<Bytes>)
    requires OnWalk(c, leaves) && c.i % 2 == 1
    ensures OnWalk(Succ(c), leaves) && Succ(c) == Parent(c)
    ensures NodePos(c) + 1 == NodePos(Succ(c)) < LeafPos(|leaves|)
    ensures NodePos(Sibling(c)) < NodePos(c) && NodePos(Sibling(c)) < LeafPos(|leaves| - 1)
    ensures LeftChild(Succ(c)) == Sibling(c)
    ensures NodePos(c) < LeafPos(|leaves|)
    ensures HashAt(leaves, NodePos(Succ(c)))
         == ParentHash(NodePos(Succ(c)), HashAt(leaves, NodePos(Sibling(c))), HashAt(leaves, NodePos(c)))
  {
    hide Shl, PopCount, NodePos, HashAt;
    var p := Parent(c);
    ChildOfParent(c);
    LeafSpan(p);
    ChildPositions(p);
    NodePosSucc(c);
    ChildrenInRange(p, |leaves|);
    HashAtCoord(leaves, p);
    HashAtCoord(leaves, c);
    HashAtCoord(leaves, Sibling(c));
    InRangeIffBelow(Sibling(c), |leaves| - 1);
  }

  lemma MatchAppend(hashes: seq<Hash>, from: nat, leaves: seq<Bytes>, hash: Hash)
    requires HashesMatch(hashes, from, leaves) && from + |hashes| < LeafPos(|leaves|)
    requires hash == HashAt(leaves, from + |hashes|)
    ensures HashesMatch(hashes + [hash], from, leaves)
  {
  }

  /** The nodes collected so far end with the walk node c, and `next` is the node after it. */
  ghost predicate Walking(c: Coord, from: nat, nodes: seq<Hash>, next: Index, leaves: seq<Bytes>) {
    && OnWalk(c, leaves)
    && |leaves| <= MAX_LEAVES
    && HashesMatch(nodes, from, leaves)
    && nodes != []
    && from + |nodes| == NodePos(c) + 1
    && next == AtCoord(Succ(c)) && next.Valid()
  }

  /** The walk starts at the new leaf. */
  lemma WalkStart(from: nat, nodes: seq<Hash>, next: Index, before: seq<Bytes>, data: Bytes)
    requires |before| < MAX_LEAVES
    requires HashesMatch(nodes, from, before) && from + |nodes| == LeafPos(|before|)
    requires next == AtCoord(NodeAt(LeafPos(|before|) + 1)) && next.Valid()
    ensures Walking(Coord(|before|, 0), from, nodes + [LeafHash(LeafPos(|before|), data)], next, before + [data])
  {
    hide PopCount, LeafPos, NodePos, NodeAt, HashAt;
    var n := |before|;
    var after := before + [data];
    MatchPrefix(nodes, from, before, after, n);
    LeafNodePos(n);
    HashAtCoord(after, Coord(n, 0));
    MatchAppend(nodes, from, after, LeafHash(LeafPos(n), data));
    WalkNext(Coord(n, 0));
  }

  /** The node after a walk node, as Index::GetNext finds it. */
  lemma WalkNext(c: Coord)
    ensures NodeAt(NodePos(c) + 1) == Succ(c)
    ensures Succ(c).h == 0 <==> c.i % 2 == 0
  {
    NodePosSucc(c);
    NodeAtPos(Succ(c));
  }

  /** While the next node is not a leaf, it is the parent of the walk node, whose left child is an older node. */
  lemma WalkLeft(c: Coord, from: nat, nodes: seq<Hash>, next: Index, leaves: seq<Bytes>)
    requires Walking(c, from, nodes, next, leaves) && !next.IsLeaf()
    ensures next.GetLeftChild().position < from + |nodes|
    ensures next.GetLeftChild().position < LeafPos(|leaves| - 1) < LeafPos(|leaves|)
    ensures next.GetLeftChild().position >= from ==>
              nodes[next.GetLeftChild().position - from] == HashAt(leaves, next.GetLeftChild().position)
    ensures next.position + 2 < U64
  {
    hide PopCount, LeafPos, NodePos, NodeAt, HashAt;
    WalkNext(c);
    WalkUp(c, leaves);
    LeafPosMono(|leaves| - 1, |leaves|);
    NodeAtPos(Succ(c));
  }

  /** Adding the parent of the walk node, from its left child's hash and the newest one. */
  lemma WalkStep(c: Coord, from: nat, nodes: seq<Hash>, next: Index, leaves: seq<Bytes>, left: Hash, after: Index)
    requires Walking(c, from, nodes, next, leaves) && !next.IsLeaf()
    requires next.GetLeftChild().position < LeafPos(|leaves|)
    requires left == HashAt(leaves, next.GetLeftChild().position)
    requires after == AtCoord(NodeAt(next.position + 1)) && after.Valid()
    ensures Walking(Succ(c), from, nodes + [ParentHash(next.position, left, nodes[|nodes| - 1])], after, leaves)
    ensures NodePos(c) < NodePos(Succ(c)) < LeafPos(|leaves|)
  {
    hide Shl, PopCount, NodePos, LeafPos, HashAt, EndLeaf, NodeAt;
    WalkNext(c);
    WalkUp(c, leaves);
    NodeAtPos(Succ(c));
    WalkNext(Succ(c));
    MatchAppend(nodes, from, leaves, ParentHash(next.position, left, nodes[|nodes| - 1]));
  }

  /** When the next node is a leaf, all nodes up to it are there. */
  lemma WalkEnd(c: Coord, from: nat, nodes: seq<Hash>, next: Index, leaves: seq<Bytes>)
    requires Walking(c, from, nodes, next, leaves) && next.IsLeaf()
    ensures from + |nodes| == LeafPos(|leaves|) && HashesMatch(nodes, from, leaves)
  {
    hide PopCount, LeafPos, NodePos, NodeAt, HashAt;
    WalkNext(c);
    NodePosSucc(c);
    LeafNodePos(|leaves|);
  }

  // ---------- FileBackend ----------

  class FileBackend {
    /** The hash file, one entry for each 32 bytes. */
    var hashes: seq<Hash>
    /** Leaves added since the last commit, with the place of the newest leaf of each index. */
    var leaves: seq<Leaf>
    var leafMap: map<nat, nat>
    /** The leaf database. */
    var database: map<nat, Bytes>

    ghost var Leaves: seq<Bytes>

    ghost predicate Valid()
      reads this
    {
      && |Leaves| <= MAX_LEAVES
      && |hashes| == LeafPos(|Leaves|)
      && HashesMatch(hashes, 0, Leaves)
      && PendingConsistent(leaves, leafMap)
      && forall n :: 0 <= n < |Leaves| ==> Stored(n, leaves, leafMap, database, Leaves[n])
    }

    constructor ()
      ensures Valid() && Leaves == []
    {
      hashes, leaves, leafMap, database, Leaves := [], [], map[], map[], [];
    }

    function GetHash(p: nat): Hash
      requires p < |hashes|
      reads this
    {
      hashes[p]
    }

    method GetNumLeaves() returns (n: nat)
      requires Valid()
      ensures n == |Leaves|
    {
      var size := |hashes|;
      ghost var count := |Leaves|;
      LeafNodePos(count);
      NodeAtPos(Coord(count, 0));
      var x := At(size);
      n := GetLeafIndex(x);
    }

    method GetLeaf(n: nat) returns (leaf: Leaf)
      requires Valid() && n < |Leaves|
      ensures leaf == CreateLeaf(n, Leaves[n])
    {
      assert Stored(n, leaves, leafMap, database, Leaves[n]);
      if n in leafMap {
        leaf := leaves[leafMap[n]];
      } else {
        leaf := CreateLeaf(n, database[n]);
      }
    }

    method AddLeaf(leaf: Leaf)
      requires Valid() && |Leaves| < MAX_LEAVES
      requires leaf == CreateLeaf(|Leaves|, leaf.data)
      modifies this
      ensures Valid() && Leaves == old(Leaves) + [leaf.data]
      ensures database == old(database)
    {
      PendingAdd(leaves, leafMap, database, Leaves, leaf);
      leafMap := leafMap[leaf.index := |leaves|];
      leaves := leaves + [leaf];
      AddNodes(leaf);
      Leaves := Leaves + [leaf.data];
    }

    /** Appends the hash of a new last leaf, and of every node it completes. */
    method AddNodes(leaf: Leaf)
      requires |Leaves| < MAX_LEAVES && |hashes| == LeafPos(|Leaves|) && HashesMatch(hashes, 0, Leaves)
      requires leaf == CreateLeaf(|Leaves|, leaf.data)
      modifies `hashes
      ensures |hashes| == LeafPos(|Leaves| + 1) && HashesMatch(hashes, 0, Leaves + [leaf.data])
    {
      hide PopCount, LeafPos, NodePos, NodeAt, EndLeaf, HashAt, Walking, HashesMatch;
      ghost var after := Leaves + [leaf.data];
      ghost var c := Coord(|Leaves|, 0);
      var next := At(LeafPos(leaf.index) + 1);
      WalkStart(0, hashes, next, Leaves, leaf.data);
      hashes := hashes + [leaf.hash];
      var rightHash := leaf.hash;
      while !next.IsLeaf()
        invariant Walking(c, 0, hashes, next, after)
        invariant hashes != [] && rightHash == hashes[|hashes| - 1]
        invariant Leaves == old(Leaves)
        decreases LeafPos(|after|) - NodePos(c)
      {
        WalkLeft(c, 0, hashes, next, after);
        ghost var before := hashes;
        var leftHash := GetHash(next.GetLeftChild().position);
        var hash := ParentHash(next.position, leftHash, rightHash);
        hashes := hashes + [hash];
        rightHash := hash;
        var following := At(next.position + 1);
        WalkStep(c, 0, before, next, after, leftHash, following);
        c, next := Succ(c), following;
      }
      WalkEnd(c, 0, hashes, next, after);
    }

    /** False when the file ends before the new end, which the append-only file reports as an error. */
    method Rewind(n: nat) returns (ok: bool)
      requires Valid() && n <= MAX_LEAVES
      modifies this
      ensures Valid() && database == old(database)
      ensures ok == (n <= |old(Leaves)|)
      ensures Leaves == if ok then old(Leaves)[..n] else old(Leaves)
    {
      var x := LeafIndexAt(n);
      if x.position > |hashes| {
        if n <= |Leaves| { LeafPosMono(n, |Leaves|); }
        return false;
      }
      if n > |Leaves| { LeafPosMono(|Leaves|, n); }
      ghost var before := Leaves;
      hashes := hashes[..x.position];
      Leaves := Leaves[..n];
      MatchPrefix(hashes, 0, before, Leaves, n);
      ok := true;
    }

    method Commit()
      requires Valid()
      modifies this
      ensures Valid() && Leaves == old(Leaves)
      ensures forall n :: 0 <= n < |Leaves| ==> n in database && database[n] == Leaves[n]
    {
      var i := 0;
      while i < |leaves|
        invariant 0 <= i <= |leaves|
        invariant Leaves == old(Leaves) && hashes == old(hashes) && leaves == old(leaves) && leafMap == old(leafMap)
        invariant forall n :: n in old(database) && n !in leafMap ==> n in database && database[n] == old(database)[n]
        invariant forall n :: n in leafMap && leafMap[n] < i ==> n in database && database[n] == leaves[leafMap[n]].data
      {
        database := database[leaves[i].index := leaves[i].data];
        i := i + 1;
      }
      forall n | 0 <= n < |Leaves| ensures n in database && database[n] == Leaves[n] {
        assert Stored(n, leaves, leafMap, old(database), Leaves[n]);
      }
      leaves := [];
      leafMap := map[];
    }
  }

  /** leafMap gives the place of the newest pending leaf of each pending index. */
  ghost predicate PendingConsistent(leaves: seq<Leaf>, leafMap: map<nat, nat>) {
    && (forall n :: n in leafMap ==> leafMap[n] < |leaves| && leaves[leafMap[n]].index == n)
    && (forall j :: 0 <= j < |leaves| ==> leaves[j].index in leafMap && j <= leafMap[leaves[j].index])
  }

  /** The n-th leaf is found, with this data. */
  ghost predicate Stored(n: nat, leaves: seq<Leaf>, leafMap: map<nat, nat>, database: map<nat, Bytes>, data: Bytes) {
    if n in leafMap then leafMap[n] < |leaves| && leaves[leafMap[n]] == CreateLeaf(n, data)
    else n in database && database[n] == data
  }

  lemma PendingAdd(leaves: seq<Leaf>, leafMap: map<nat, nat>, database: map<nat, Bytes>, all: seq<Bytes>, leaf: Leaf)
    requires PendingConsistent(leaves, leafMap)
    requires forall n :: 0 <= n < |all| ==> Stored(n, leaves, leafMap, database, all[n])
    requires leaf == CreateLeaf(|all|, leaf.data)
    ensures PendingConsistent(leaves + [leaf], leafMap[leaf.index := |leaves|])
    ensures forall n :: 0 <= n < |all + [leaf.data]| ==>
              Stored(n, leaves + [leaf], leafMap[leaf.index := |leaves|], database, (all + [leaf.data])[n])
  {
    forall n | 0 <= n < |all + [leaf.data]|
      ensures Stored(n, leaves + [leaf], leafMap[leaf.index := |leaves|], database, (all + [leaf.data])[n])
    {
      if n < |all| { assert Stored(n, leaves, leafMap, database, all[n]); }
    }
  }
}
