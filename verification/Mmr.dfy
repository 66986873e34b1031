/**
  mmr::IMMR, mmr::MMR and mmr::MMRCache: a Merkle Mountain Range and the write-back caches stacked on it.
  Whatever the depth of the stack, each layer behaves as one flat list of leaves.
 */
module Mmr {
  import opened Bits
  import opened Positions
  import opened Indices
  import opened Merkle
  import opened Backend

  /** mmr::IMMR: what a cache can be stacked on. */
  datatype IMMR = Bottom(mmr: MMR) | Cached(cache: MMRCache) {

    function Obj(): object {
      match this
      case Bottom(m) => m
      case Cached(c) => c
    }

    /** All the objects of this layer and of the layers below. */
    ghost function Repr(): set<object>
    {
      match this
      case Bottom(m) => m.Repr
      case Cached(c) => c.Repr
    }

    /** The objects of this layer alone. */
    ghost function Own(): set<object>
    {
      match this
      case Bottom(m) => m.Repr
      case Cached(c) => {c}
    }

    ghost predicate Valid()
      reads Obj(), Repr()
      ensures Valid() ==> Obj() in Repr() && Own() <= Repr()
      decreases Repr(), 2
    {
      && Obj() in Repr() && Own() <= Repr()
      && match this
         case Bottom(m) => m.Valid()
         case Cached(c) => c.Valid()
    }

    /** The leaf list this layer stands for. */
    ghost function Leaves(): seq<Bytes>
      reads Obj()
    {
      match this
      case Bottom(m) => m.Leaves
      case Cached(c) => c.Leaves
    }

    method GetNextLeafIdx() returns (n: nat)
      requires Valid()
      ensures n == |Leaves()| <= MAX_LEAVES
    {
      match this {
        case Bottom(m) => n := m.GetNextLeafIdx();
        case Cached(c) => n := c.GetNextLeafIdx();
      }
    }

    function GetHash(p: nat): (hash: Hash)
      requires Valid() && p < LeafPos(|Leaves()|)
      reads Obj(), Repr()
      ensures hash == HashAt(Leaves(), p)
      decreases Repr(), 2
    {
      match this
      case Bottom(m) => m.GetHash(p)
      case Cached(c) => c.GetHashCorrect(p); c.GetHash(p)
    }

    method GetLeaf(n: nat) returns (leaf: Leaf)
      requires Valid() && n < |Leaves()|
      ensures leaf == CreateLeaf(n, Leaves()[n])
      decreases Repr(), 2
    {
      match this {
        case Bottom(m) => leaf := m.GetLeaf(n);
        case Cached(c) => leaf := c.GetLeaf(n);
      }
    }

    method BatchWrite(first: nat, newLeaves: seq<Leaf>)
      requires Valid() && first <= |Leaves()| && first + |newLeaves| <= MAX_LEAVES
      requires forall k :: 0 <= k < |newLeaves| ==> newLeaves[k] == CreateLeaf(first + k, newLeaves[k].data)
      modifies Own()
      ensures Valid()
      ensures Leaves() == old(Leaves())[..first] + DataOf(newLeaves)
    {
      match this {
        case Bottom(m) => m.BatchWrite(first, newLeaves);
        case Cached(c) => c.BatchWrite(first, newLeaves);
      }
    }

    /** IMMR::Root: the bagged peaks. */
    method Root() returns (hash: Hash)
      requires Valid()
      ensures hash == MmrRoot(Leaves())
    {
      hide PopCount, LeafPos, NodePos, NodeAt, EndLeaf, HashAt, Peaks, Bag, PeakHashes;
      ghost var leaves := Leaves();
      var n := GetNextLeafIdx();
      var last := LeafIndexAt(n);
      var size := last.position;
      if size == 0 {
        EmptyRoot();
        assert leaves == [];
        return Zero;
      }

      var peakIndices := FindPeaks(n, size);
      ghost var hashes := PeakHashes(leaves);
      hash := Zero;
      var i := |peakIndices|;
      BagEmpty(hashes, size);
      while i > 0
        invariant 0 <= i <= |peakIndices| == |hashes|
        invariant hash == Bag(hashes[i..], size)
      {
        hide IMMR.Valid;
        i := i - 1;
        PeakHash(leaves, i);
        BagStep(hashes, i, size);
        var peakHash := GetHash(peakIndices[i]);
        if hash == Zero {
          hash := peakHash;
        } else {
          hash := ParentHash(size, peakHash, hash);
        }
      }
      assert hashes[0..] == hashes;
    }
  }

  lemma CachedValid(c: MMRCache)
    ensures IMMR.Cached(c).Valid() <==> c.Valid()
  {
  }

  lemma BaseIsValid(c: MMRCache)
    requires c.Valid()
    ensures c.base.Valid()
  {
  }

  ghost function DataOf(leaves: seq<Leaf>): (data: seq<Bytes>)
    ensures |data| == |leaves| && forall k :: 0 <= k < |data| ==> data[k] == leaves[k].data
  {
    seq(|leaves|, k requires 0 <= k < |leaves| => leaves[k].data)
  }

  /** The hash of a peak is the hash at its position. */
  lemma PeakHash(leaves: seq<Bytes>, i: nat)
    requires i < |Peaks(|leaves|)|
    ensures NodePos(Peaks(|leaves|)[i]) < LeafPos(|leaves|)
    ensures PeakHashes(leaves)[i] == HashAt(leaves, NodePos(Peaks(|leaves|)[i]))
  {
    hide PopCount, LeafPos, NodePos, NodeAt, EndLeaf, HashAt, Peaks;
    PeaksInRange(|leaves|);
    HashAtCoord(leaves, Peaks(|leaves|)[i]);
  }

  lemma BagEmpty(hashes: seq<Hash>, size: nat)
    ensures Bag(hashes[|hashes|..], size) == Zero
  {
  }

  /** Bagging one more peak on the left. */
  lemma BagStep(hashes: seq<Hash>, i: nat, size: nat)
    requires i < |hashes|
    ensures Bag(hashes[i..], size)
         == var rest := Bag(hashes[i + 1..], size);
            if rest == Zero then hashes[i] else ParentHash(size, hashes[i], rest)
  {
    assert hashes[i..][1..] == hashes[i + 1..];
  }

  /** Where the greedy search for the peaks stands when the peak size 2^k - 1 is tested next. */
  ghost predicate PeakSearch(n: nat, b: nat, m: nat, numLeft: nat, sumPrevPeaks: nat, found: seq<nat>, k: nat) {
    && m < Pow2(k)
    && StartLeaf(Coord(b, k)) + m == n
    && numLeft == LeafPos(m)
    && sumPrevPeaks == LeafPos(StartLeaf(Coord(b, k)))
    && exists done: seq<Coord> ::
         done + PeaksBelow(b, m, k) == Peaks(n) && PositionsOf(done, found)
  }

  ghost predicate PositionsOf(coords: seq<Coord>, positions: seq<nat>) {
    |positions| == |coords| && forall j :: 0 <= j < |coords| ==> positions[j] == NodePos(coords[j])
  }

  lemma PeakSearchStart(n: nat)
    ensures PeakSearch(n, 0, n, LeafPos(n), 0, [], Len(LeafPos(n)))
  {
    var k := Len(LeafPos(n));
    LenBounds(LeafPos(n));
    StartOfFirst(k);
    PeaksAtAnyLevel(n, k);
    assert [] + PeaksBelow(0, n, k) == Peaks(n);
    assert PositionsOf([], []);
  }

  /** The first tree of a peak search, and where it lies. */
  lemma FirstPeak(b: nat, k: nat)
    requires k > 0
    ensures NodePos(Coord(2 * b, k - 1)) == LeafPos(StartLeaf(Coord(b, k))) + Ones(k) - 1
    ensures LeafPos(StartLeaf(Coord(2 * b + 1, k - 1))) == LeafPos(StartLeaf(Coord(b, k))) + Ones(k)
  {
    Halves(b, k);
    hide Shl, PopCount;
    PopCountStartLeaf(Coord(b, k));
    PopCountStartLeaf(Coord(2 * b + 1, k - 1));
    PopCountDouble(b);
  }

  lemma PopCountStartLeaf(c: Coord)
    ensures PopCount(StartLeaf(c)) == PopCount(c.i)
  {
    PopCountShl(c.i, c.h);
  }

  lemma PeakSearchStep(n: nat, b: nat, m: nat, numLeft: nat, sum: nat, found: seq<nat>, k: nat)
    requires k > 0 && PeakSearch(n, b, m, numLeft, sum, found, k)
    ensures numLeft >= Ones(k) <==> m >= Pow2(k - 1)
    ensures if numLeft >= Ones(k)
            then PeakSearch(n, 2 * b + 1, m - Pow2(k - 1), numLeft - Ones(k), sum + Ones(k), found + [sum + Ones(k) - 1], k - 1)
            else PeakSearch(n, 2 * b, m, numLeft, sum, found, k - 1)
  {
    hide Shl, PopCount, LeafPos, NodePos, Peaks;
    GreedyStep(m, 0, numLeft, k);
    Halves(b, k);
    var done: seq<Coord> :| done + PeaksBelow(b, m, k) == Peaks(n) && PositionsOf(done, found);
    if m >= Pow2(k - 1) {
      FirstPeak(b, k);
      var c := Coord(2 * b, k - 1);
      assert done + [c] + PeaksBelow(2 * b + 1, m - Pow2(k - 1), k - 1) == done + PeaksBelow(b, m, k);
      assert PositionsOf(done + [c], found + [NodePos(c)]);
    }
  }

  lemma PeakSearchEnd(n: nat, b: nat, m: nat, numLeft: nat, sum: nat, found: seq<nat>)
    requires PeakSearch(n, b, m, numLeft, sum, found, 0)
    ensures numLeft == 0 && PositionsOf(Peaks(n), found)
  {
    var done: seq<Coord> :| done + PeaksBelow(b, m, 0) == Peaks(n) && PositionsOf(done, found);
    assert done == Peaks(n);
  }

  /** The first part of IMMR::Root: the positions of the peaks, largest tree first. */
  method FindPeaks(ghost n: nat, size: nat) returns (peakIndices: seq<nat>)
    requires size == LeafPos(n) < U64
    ensures PositionsOf(Peaks(n), peakIndices)
  {
    hide Shl, PeakSearch, LeafPos, PositionsOf;
    ghost var k := Len(size);
    ghost var b: nat, m: nat := 0, n;
    PeakSearchStart(n);
    peakIndices := [];
    var peakSize := FillOnesToRight(size);
    var numLeft := size;
    var sumPrevPeaks := 0;
    while peakSize != 0
      invariant peakSize == Ones(k)
      invariant PeakSearch(n, b, m, numLeft, sumPrevPeaks, peakIndices, k)
      decreases peakSize
    {
      OnesIsZero(k);
      PeakSearchStep(n, b, m, numLeft, sumPrevPeaks, peakIndices, k);
      HalfOfOnes(k);
      if numLeft >= peakSize {
        b, m := 2 * b + 1, m - Pow2(k - 1);
        peakIndices := peakIndices + [sumPrevPeaks + peakSize - 1];
        sumPrevPeaks := sumPrevPeaks + peakSize;
        numLeft := numLeft - peakSize;
      } else {
        b := 2 * b;
      }
      peakSize := peakSize / 2;
      k := k - 1;
    }
    OnesIsZero(k);
    PeakSearchEnd(n, b, m, numLeft, sumPrevPeaks, peakIndices);
    assert numLeft == 0;
  }

  lemma NoData(leaves: seq<Leaf>)
    ensures DataOf(leaves[..0]) == []
  {
  }

  lemma DataStep(leaves: seq<Leaf>, i: nat)
    requires i < |leaves|
    ensures DataOf(leaves[..i + 1]) == DataOf(leaves[..i]) + [leaves[i].data]
  {
  }

  /** mmr::MMR: the bottom of every stack, over a file backend. */
  class MMR {
    const backend: FileBackend
    ghost var Leaves: seq<Bytes>
    ghost const Repr: set<object>

    ghost predicate Valid()
      reads this, Repr
    {
      && backend != this as object
      && Repr == {this, backend}
      && backend.Valid()
      && Leaves == backend.Leaves
    }

    constructor (backend: FileBackend)
      requires backend.Valid()
      ensures Valid() && this.backend == backend && Leaves == backend.Leaves
    {
      this.backend := backend;
      Leaves := backend.Leaves;
      Repr := {this, backend};
    }

    method GetNextLeafIdx() returns (n: nat)
      requires Valid()
      ensures n == |Leaves|
    {
      n := backend.GetNumLeaves();
    }

    method GetNumNodes() returns (n: nat)
      requires Valid()
      ensures n == LeafPos(|Leaves|) == |backend.hashes|
    {
      var numLeaves := backend.GetNumLeaves();
      if numLeaves == 0 {
        return 0;
      }
      var x := LeafIndexAt(numLeaves);
      n := x.position;
    }

    function GetHash(p: nat): (hash: Hash)
      requires Valid() && p < LeafPos(|Leaves|)
      reads this, Repr
      ensures hash == HashAt(Leaves, p)
    {
      backend.GetHash(p)
    }

    method GetLeaf(n: nat) returns (leaf: Leaf)
      requires Valid() && n < |Leaves|
      ensures leaf == CreateLeaf(n, Leaves[n])
    {
      leaf := backend.GetLeaf(n);
    }

    method AddLeaf(data: Bytes) returns (leafIdx: nat)
      requires Valid() && |Leaves| < MAX_LEAVES
      modifies Repr
      ensures Valid() && leafIdx == |old(Leaves)| && Leaves == old(Leaves) + [data]
    {
      leafIdx := backend.GetNumLeaves();
      backend.AddLeaf(CreateLeaf(leafIdx, data));
      Leaves := backend.Leaves;
    }

    method Rewind(numLeaves: nat) returns (ok: bool)
      requires Valid() && numLeaves <= MAX_LEAVES
      modifies Repr
      ensures Valid() && ok == (numLeaves <= |old(Leaves)|)
      ensures Leaves == if ok then old(Leaves)[..numLeaves] else old(Leaves)
    {
      ok := backend.Rewind(numLeaves);
      Leaves := backend.Leaves;
    }

    /** Replaces everything from leaf `first` on, and commits to the database. */
    method BatchWrite(first: nat, newLeaves: seq<Leaf>)
      requires Valid() && first <= |Leaves| && first + |newLeaves| <= MAX_LEAVES
      requires forall k :: 0 <= k < |newLeaves| ==> newLeaves[k] == CreateLeaf(first + k, newLeaves[k].data)
      modifies Repr
      ensures Valid() && Leaves == old(Leaves)[..first] + DataOf(newLeaves)
      ensures forall n :: 0 <= n < |Leaves| ==> n in backend.database && backend.database[n] == Leaves[n]
    {
      hide HashesMatch, LeafPos, DataOf;
      var ok := backend.Rewind(first);
      var i := 0;
      NoData(newLeaves);
      while i < |newLeaves|
        invariant 0 <= i <= |newLeaves| && backend.Valid()
        invariant backend.Leaves == old(Leaves)[..first] + DataOf(newLeaves[..i])
      {
        DataStep(newLeaves, i);
        backend.AddLeaf(newLeaves[i]);
        i := i + 1;
      }
      assert newLeaves[..i] == newLeaves;
      backend.Commit();
      Leaves := backend.Leaves;
    }
  }

  /**
    The content of a cache: the first leaves of its base and then its own leaves, with the hashes of all
    the nodes from its first leaf's on.
   */
  ghost predicate Layered(content: seq<Bytes>, below: seq<Bytes>, first: nat, leaves: seq<Leaf>, nodes: seq<Hash>) {
    && first <= |below|
    && |content| <= MAX_LEAVES
    && content == below[..first] + DataOf(leaves)
    && (forall k :: 0 <= k < |leaves| ==> leaves[k] == CreateLeaf(first + k, leaves[k].data))
    && LeafPos(first) + |nodes| == LeafPos(|content|)
    && HashesMatch(nodes, LeafPos(first), content)
  }

  lemma LayeredStart(below: seq<Bytes>, n: nat)
    requires n <= |below| && n <= MAX_LEAVES
    ensures Layered(below[..n], below, n, [], [])
  {
    assert below[..n] + DataOf([]) == below[..n];
  }

  lemma LayeredSize(content: seq<Bytes>, below: seq<Bytes>, first: nat, leaves: seq<Leaf>, nodes: seq<Hash>)
    requires Layered(content, below, first, leaves, nodes)
    ensures |content| == first + |leaves| <= MAX_LEAVES && content[..first] == below[..first]
    ensures leaves != [] ==> leaves[|leaves| - 1].index + 1 == |content|
    ensures LeafPos(first) + |nodes| == LeafPos(|content|) && HashesMatch(nodes, LeafPos(first), content)
  {
    hide LeafPos, HashesMatch;
  }

  lemma LeafIndices(content: seq<Bytes>, below: seq<Bytes>, first: nat, leaves: seq<Leaf>, nodes: seq<Hash>)
    requires Layered(content, below, first, leaves, nodes)
    ensures forall k :: 0 <= k < |leaves| ==> leaves[k].index == first + k
    ensures forall k :: 0 <= k < |leaves| ==> leaves[k] == CreateLeaf(first + k, leaves[k].data)
    ensures content == below[..first] + DataOf(leaves)
  {
    hide LeafPos, HashesMatch;
  }

  lemma LayeredAdd(content: seq<Bytes>, below: seq<Bytes>, first: nat, leaves: seq<Leaf>, nodes: seq<Hash>,
                   data: Bytes, nodes': seq<Hash>)
    requires Layered(content, below, first, leaves, nodes) && |content| < MAX_LEAVES
    requires LeafPos(first) + |nodes'| == LeafPos(|content| + 1)
    requires HashesMatch(nodes', LeafPos(first), content + [data])
    ensures Layered(content + [data], below, first, leaves + [CreateLeaf(|content|, data)], nodes')
  {
    hide LeafPos, HashesMatch;
    var leaf := CreateLeaf(|content|, data);
    assert DataOf(leaves + [leaf]) == DataOf(leaves) + [data];
  }

  /** Keeping the first i of the cache's own leaves, with their nodes. */
  lemma LayeredTake(content: seq<Bytes>, below: seq<Bytes>, first: nat, leaves: seq<Leaf>, nodes: seq<Hash>, i: nat)
    requires Layered(content, below, first, leaves, nodes) && i <= |leaves|
    ensures LeafPos(first) <= LeafPos(first + i) <= LeafPos(first) + |nodes| && first + i <= |content|
    ensures i > 0 ==> leaves[i - 1].index + 1 == first + i
    ensures Layered(content[..first + i], below, first, leaves[..i], nodes[..LeafPos(first + i) - LeafPos(first)])
  {
    hide PopCount, LeafPos, HashAt, HashesMatch;
    LeafPosMono(first, first + i);
    LeafPosMono(first + i, |content|);
    MatchTruncate(nodes, LeafPos(first), content, content[..first + i], first + i);
    assert DataOf(leaves[..i]) == DataOf(leaves)[..i];
  }

  lemma TakeAll<T>(s: seq<T>, n: int)
    ensures n == |s| ==> s[..n] == s
  {
  }

  /** mmr::MMRCache: changes kept in memory over a base MMR, which may itself be a cache. */
  class MMRCache {
    const base: IMMR
    var firstLeaf: nat
    var leaves: seq<Leaf>
    var nodes: seq<Hash>

    ghost var Leaves: seq<Bytes>
    ghost const Repr: set<object>

    /** The base is intact, and this object is not one of its objects. */
    ghost predicate BaseValid()
      reads this, Repr
      decreases Repr, 0
    {
      && this in Repr && base.Obj() in Repr
      && base.Repr() <= Repr && this !in base.Repr()
      && base.Valid()
      && firstLeaf <= |base.Leaves()|
    }

    ghost predicate Valid()
      reads this, Repr
      decreases Repr, 1
    {
      && BaseValid()
      && Layered(Leaves, base.Leaves(), firstLeaf, leaves, nodes)
    }

    constructor (base: IMMR)
      requires base.Valid()
      ensures Valid() && this.base == base && Repr == base.Repr() + {this}
      ensures Leaves == base.Leaves()
    {
      var n := base.GetNextLeafIdx();
      this.base := base;
      firstLeaf, leaves, nodes := n, [], [];
      Leaves := base.Leaves();
      Repr := base.Repr() + {this};
      LayeredStart(base.Leaves(), n);
      assert base.Leaves()[..n] == base.Leaves();
    }

    method GetNextLeafIdx() returns (n: nat)
      requires Valid()
      ensures n == |Leaves| <= MAX_LEAVES
    {
      hide Layered;
      LayeredSize(Leaves, base.Leaves(), firstLeaf, leaves, nodes);
      if leaves == [] {
        n := firstLeaf;
      } else {
        n := leaves[|leaves| - 1].index + 1;
      }
    }

    function GetHash(p: nat): (hash: Hash)
      requires BaseValid()
      requires p < LeafPos(firstLeaf) || p - LeafPos(firstLeaf) < |nodes|
      reads this, Repr
      decreases Repr, 0
    {
      LeafPosMono(firstLeaf, |base.Leaves()|);
      if p < LeafPos(firstLeaf) then base.GetHash(p) else nodes[p - LeafPos(firstLeaf)]
    }

    lemma GetHashCorrect(p: nat)
      requires Valid() && p < LeafPos(|Leaves|)
      ensures p < LeafPos(firstLeaf) || p - LeafPos(firstLeaf) < |nodes|
      ensures GetHash(p) == HashAt(Leaves, p)
      decreases Repr, 1
    {
      hide PopCount, LeafPos, HashAt;
      LeafPosMono(firstLeaf, |base.Leaves()|);
      if p < LeafPos(firstLeaf) {
        HashAtPrefix(base.Leaves(), Leaves, firstLeaf, p);
      }
    }

    method GetLeaf(n: nat) returns (leaf: Leaf)
      requires Valid() && n < |Leaves|
      ensures leaf == CreateLeaf(n, Leaves[n])
      decreases Repr, 1
    {
      if n < firstLeaf {
        leaf := base.GetLeaf(n);
      } else {
        leaf := leaves[n - firstLeaf];
      }
    }

    method AddLeaf(data: Bytes) returns (leafIdx: nat)
      requires Valid() && |Leaves| < MAX_LEAVES
      modifies this
      ensures Valid() && leafIdx == |old(Leaves)| && Leaves == old(Leaves) + [data]
    {
      hide IMMR.Valid, Layered, LeafPos, PopCount, HashesMatch, HashAt;
      LayeredSize(Leaves, base.Leaves(), firstLeaf, leaves, nodes);
      leafIdx := firstLeaf + |leaves|;
      var leaf := CreateLeaf(leafIdx, data);
      ghost var before := nodes;
      AddNodes(leaf);
      LayeredAdd(Leaves, base.Leaves(), firstLeaf, leaves, before, data, nodes);
      leaves := leaves + [leaf];
      Leaves := Leaves + [data];
    }

    /** Appends the hash of a new last leaf, and of every node it completes. */
    method AddNodes(leaf: Leaf)
      requires Valid() && |Leaves| < MAX_LEAVES
      requires leaf == CreateLeaf(|Leaves|, leaf.data)
      modifies `nodes
      ensures LeafPos(firstLeaf) + |nodes| == LeafPos(|Leaves| + 1)
      ensures HashesMatch(nodes, LeafPos(firstLeaf), Leaves + [leaf.data])
    {
      hide IMMR.Valid, PopCount, LeafPos, NodePos, NodeAt, EndLeaf, HashAt, Walking, HashesMatch, Layered;
      LayeredSize(Leaves, base.Leaves(), firstLeaf, leaves, nodes);
      ghost var after := Leaves + [leaf.data];
      ghost var from := LeafPos(firstLeaf);
      ghost var c := Coord(|Leaves|, 0);
      var next := At(LeafPos(leaf.index) + 1);
      WalkStart(from, nodes, next, Leaves, leaf.data);
      nodes := nodes + [leaf.hash];
      var rightHash := leaf.hash;
      while !next.IsLeaf()
        invariant Walking(c, from, nodes, next, after)
        invariant nodes != [] && rightHash == nodes[|nodes| - 1]
        invariant BaseValid()
        decreases LeafPos(|after|) - NodePos(c)
      {
        WalkLeft(c, from, nodes, next, after);
        ghost var before := nodes;
        var leftHash := GetHash(next.GetLeftChild().position);
        LeftHash(next.GetLeftChild().position, after);
        var hash := ParentHash(next.position, leftHash, rightHash);
        nodes := nodes + [hash];
        rightHash := hash;
        var following := At(next.position + 1);
        WalkStep(c, from, before, next, after, leftHash, following);
        c, next := Succ(c), following;
      }
      WalkEnd(c, from, nodes, next, after);
    }

    /** Reading an older node: from the base below the first leaf, else from the nodes kept here. */
    lemma LeftHash(p: nat, after: seq<Bytes>)
      requires BaseValid() && firstLeaf <= |after| && after[..firstLeaf] == base.Leaves()[..firstLeaf]
      requires p < LeafPos(firstLeaf) || p - LeafPos(firstLeaf) < |nodes|
      requires p < LeafPos(|after|)
      requires p >= LeafPos(firstLeaf) ==> nodes[p - LeafPos(firstLeaf)] == HashAt(after, p)
      ensures GetHash(p) == HashAt(after, p)
    {
      hide PopCount, LeafPos, HashAt;
      LeafPosMono(firstLeaf, |base.Leaves()|);
      if p < LeafPos(firstLeaf) {
        HashAtPrefix(base.Leaves(), after, firstLeaf, p);
      }
    }

    /** Keeps the first min(numLeaves, count) leaves. */
    method Rewind(numLeaves: nat)
      requires Valid() && numLeaves <= MAX_LEAVES
      modifies this
      ensures Valid()
      ensures Leaves == if numLeaves <= |old(Leaves)| then old(Leaves)[..numLeaves] else old(Leaves)
    {
      hide IMMR.Valid, Layered, LeafPos, PopCount, HashesMatch, HashAt;
      LayeredSize(Leaves, base.Leaves(), firstLeaf, leaves, nodes);
      if numLeaves <= firstLeaf {
        Drop(numLeaves);
      } else if leaves != [] {
        LeafIndices(Leaves, base.Leaves(), firstLeaf, leaves, nodes);
        var i := 0;
        while i < |leaves| && leaves[i].index < numLeaves
          invariant 0 <= i <= |leaves| && firstLeaf + i <= numLeaves
        {
          i := i + 1;
        }
        Take(i);
        assert old(Leaves)[..|old(Leaves)|] == old(Leaves);
      }
    }

    /** Forgets everything kept here, and the leaves of the base from `numLeaves` on. */
    method Drop(numLeaves: nat)
      requires Valid() && numLeaves <= firstLeaf
      modifies this
      ensures Valid() && numLeaves <= |old(Leaves)| && Leaves == old(Leaves)[..numLeaves]
    {
      hide IMMR.Valid, Layered, LeafPos, PopCount, HashesMatch, HashAt;
      LayeredSize(Leaves, base.Leaves(), firstLeaf, leaves, nodes);
      LayeredStart(base.Leaves(), numLeaves);
      assert Leaves[..numLeaves] == Leaves[..firstLeaf][..numLeaves] == base.Leaves()[..numLeaves];
      firstLeaf := numLeaves;
      leaves := [];
      nodes := [];
      Leaves := Leaves[..numLeaves];
    }

    /** Erases the leaves from the i-th on, and the nodes after the last leaf kept. */
    method Take(i: nat)
      requires Valid() && i <= |leaves|
      modifies this
      ensures Valid() && firstLeaf + i <= |old(Leaves)| && Leaves == old(Leaves)[..firstLeaf + i]
      ensures firstLeaf == old(firstLeaf) && leaves == old(leaves[..i])
    {
      hide IMMR.Valid, Layered, LeafPos, PopCount, HashesMatch, HashAt;
      LayeredTake(Leaves, base.Leaves(), firstLeaf, leaves, nodes, i);
      TakeAll(leaves, i);
      if i < |leaves| {
        leaves := leaves[..i];
      }
      var nextIdx := if leaves == [] then firstLeaf else leaves[|leaves| - 1].index + 1;
      var numNodes := LeafPos(nextIdx) - LeafPos(firstLeaf);
      TakeAll(nodes, numNodes);
      if |nodes| > numNodes {
        nodes := nodes[..numNodes];
      }
      Leaves := Leaves[..nextIdx];
    }

    method BatchWrite(first: nat, newLeaves: seq<Leaf>)
      requires Valid() && first <= |Leaves| && first + |newLeaves| <= MAX_LEAVES
      requires forall k :: 0 <= k < |newLeaves| ==> newLeaves[k] == CreateLeaf(first + k, newLeaves[k].data)
      modifies this
      ensures Valid() && Leaves == old(Leaves)[..first] + DataOf(newLeaves)
    {
      hide IMMR.Valid, Layered, BaseValid, LeafPos, PopCount, HashAt, HashesMatch;
      LayeredSize(Leaves, base.Leaves(), firstLeaf, leaves, nodes);
      Rewind(first);
      var i := 0;
      while i < |newLeaves|
        invariant 0 <= i <= |newLeaves| && Valid()
        invariant Leaves == old(Leaves)[..first] + DataOf(newLeaves[..i])
      {
        var leafIdx := AddLeaf(newLeaves[i].data);
        assert DataOf(newLeaves[..i + 1]) == DataOf(newLeaves[..i]) + [newLeaves[i].data];
        i := i + 1;
      }
      assert newLeaves[..i] == newLeaves;
    }

    /** Hands the whole content to the base; what this cache reads does not change. */
    method Flush()
      requires Valid()
      modifies this, base.Own()
      ensures Valid() && Leaves == old(Leaves)
      ensures base.Leaves() == Leaves
      ensures leaves == [] && nodes == []
    {
      hide IMMR.Valid, Layered, LeafPos, PopCount, HashesMatch, HashAt, CreateLeaf;
      LayeredSize(Leaves, base.Leaves(), firstLeaf, leaves, nodes);
      LeafIndices(Leaves, base.Leaves(), firstLeaf, leaves, nodes);
      base.BatchWrite(firstLeaf, leaves);
      assert base.Leaves() == Leaves == Leaves[..|Leaves|];
      LayeredStart(base.Leaves(), |Leaves|);
      firstLeaf := if leaves == [] then firstLeaf else leaves[|leaves| - 1].index + 1;
      leaves := [];
      nodes := [];
    }
  }
}
