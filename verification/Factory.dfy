/** mmr::MMRUtil and mmr::MMRFactory: rebuilding the hashes of a pruned Merkle Mountain Range from its unspent leaves. */
module Factory {
  import opened Bits
  import opened BitSets
  import opened Positions
  import opened Indices
  import opened Merkle
  import opened Backend

  // ---------- prunable nodes ----------

  /** The node is in the range, and every leaf below it is spent. */
  ghost predicate Prunable(c: Coord, unspent: BitSet) {
    InRange(c, |unspent|) && forall l :: StartLeaf(c) <= l < EndLeaf(c) ==> !Test(unspent, l)
  }

  lemma PrunableLeaf(i: nat, unspent: BitSet)
    ensures Prunable(Coord(i, 0), unspent) <==> i < |unspent| && !unspent[i]
  {
    assert EndLeaf(Coord(i, 0)) == i + 1 && StartLeaf(Coord(i, 0)) == i;
    if Prunable(Coord(i, 0), unspent) { assert !Test(unspent, i); }
  }

  lemma PrunableChildren(c: Coord, unspent: BitSet)
    requires c.h > 0
    ensures Prunable(c, unspent) <==> Prunable(LeftChild(c), unspent) && Prunable(RightChild(c), unspent)
  {
    hide Shl;
    LeafSpan(c);
    TreeSpan(LeftChild(c));
  }

  /** Below a prunable parent, both children are prunable. */
  lemma PrunableParent(c: Coord, unspent: BitSet)
    ensures Prunable(Parent(c), unspent) ==> Prunable(c, unspent) && InRange(c, |unspent|)
  {
    hide Prunable;
    ChildOfParent(c);
    PrunableChildren(Parent(c), unspent);
    if Prunable(Parent(c), unspent) { PrunableInRange(c, unspent); }
  }

  lemma PrunableInRange(c: Coord, unspent: BitSet)
    requires Prunable(c, unspent)
    ensures InRange(c, |unspent|)
  {
  }

  /** The topmost prunable nodes. */
  ghost predicate PrunedParent(c: Coord, unspent: BitSet) {
    Prunable(c, unspent) && !Prunable(Parent(c), unspent)
  }

  // ---------- SiblingIter ----------

  /** The nodes of one height, from left to right. */
  class SiblingIter {
    const height: nat
    const lastPosition: nat
    const baseInc: nat
    var siblingNum: nat
    var next: Index

    ghost predicate Valid()
      reads this
    {
      baseInc == Ones(height + 1) && (siblingNum > 0 ==> next == AtCoord(Coord(siblingNum - 1, height)))
    }

    constructor (height: nat, lastPosition: nat)
      ensures Valid() && siblingNum == 0 && this.height == height && this.lastPosition == lastPosition
    {
      this.height, this.lastPosition, baseInc := height, lastPosition, Pow2(height + 1) - 1;
      siblingNum, next := 0, Index(0, 0);
    }

    method Next() returns (more: bool)
      requires Valid()
      modifies this
      ensures Valid() && siblingNum == old(siblingNum) + 1
      ensures next == AtCoord(Coord(old(siblingNum), height))
      ensures more <==> next.position <= lastPosition
    {
      SiblingStep(siblingNum, height);
      if siblingNum == 0 {
        next := Index(baseInc - 1, height);
      } else {
        var zeros := CountRightmostZeros(siblingNum);
        var increment := baseInc + zeros;
        next := Index(next.position + increment, height);
      }
      siblingNum := siblingNum + 1;
      more := next.position <= lastPosition;
    }
  }

  lemma SiblingStep(i: nat, h: nat)
    ensures i == 0 ==> NodePos(Coord(i, h)) == Ones(h + 1) - 1
    ensures i > 0 ==> NodePos(Coord(i, h)) == NodePos(Coord(i - 1, h)) + Ones(h + 1) + TrailingZeros(i)
  {
    if i == 0 {
      RootPos(h);
    } else {
      PopCountNext(i - 1);
      ShlAdd(i, 1, h);
    }
  }

  lemma SiblingAfter(i: nat, h: nat)
    ensures NodePos(Coord(i, h)) < NodePos(Coord(i + 1, h))
  {
    SiblingStep(i + 1, h);
  }

  // ---------- CalcPrunedParents ----------

  /** What is marked when i nodes of height h have been visited: the topmost prunable nodes among those visited. */
  ghost predicate Marked(c: Coord, unspent: BitSet, h: nat, i: nat) {
    if c.h > h then false
    else if c.h == h then c.i < i && Prunable(c, unspent)
    else if c.h + 1 == h then Prunable(c, unspent) && !(c.i / 2 < i && Prunable(Parent(c), unspent))
    else PrunedParent(c, unspent)
  }

  ghost predicate Marks(bits: BitSet, unspent: BitSet, h: nat, i: nat) {
    forall c: Coord :: NodePos(c) < |bits| ==> (bits[NodePos(c)] <==> Marked(c, unspent, h, i))
  }

  lemma MarkLeaf(bits: BitSet, unspent: BitSet, i: nat)
    requires Marks(bits, unspent, 0, i) && i < |unspent| && LeafPos(i) < |bits|
    ensures Marks(if unspent[i] then bits else bits[LeafPos(i) := true], unspent, 0, i + 1)
  {
    hide NodePos, LeafPos, Prunable;
    PrunableLeaf(i, unspent);
    LeafNodePos(i);
    var after := if unspent[i] then bits else bits[LeafPos(i) := true];
    forall c: Coord | NodePos(c) < |after| ensures after[NodePos(c)] <==> Marked(c, unspent, 0, i + 1) {
      if NodePos(c) == LeafPos(i) { NodePosInjective(c, Coord(i, 0)); }
      assert bits[NodePos(c)] <==> Marked(c, unspent, 0, i);
    }
  }

  /** Visiting the i-th node of height h. */
  lemma MarkNode(bits: BitSet, unspent: BitSet, h: nat, i: nat)
    requires h > 0 && Marks(bits, unspent, h, i) && NodePos(Coord(i, h)) < |bits|
    ensures var c := Coord(i, h);
      && NodePos(LeftChild(c)) < NodePos(RightChild(c)) < NodePos(c)
      && (bits[NodePos(LeftChild(c))] && bits[NodePos(RightChild(c))] <==> Prunable(c, unspent))
      && Marks(if Prunable(c, unspent)
               then bits[NodePos(RightChild(c)) := false][NodePos(LeftChild(c)) := false][NodePos(c) := true] else bits,
               unspent, h, i + 1)
  {
    hide NodePos, Prunable, PrunedParent;
    var d := Coord(i, h);
    ChildPositions(d);
    PrunableChildren(d, unspent);
    ParentOfChildren(d);
    var after := if Prunable(d, unspent)
      then bits[NodePos(RightChild(d)) := false][NodePos(LeftChild(d)) := false][NodePos(d) := true] else bits;
    forall c: Coord | NodePos(c) < |after| ensures after[NodePos(c)] <==> Marked(c, unspent, h, i + 1) {
      assert bits[NodePos(c)] <==> Marked(c, unspent, h, i);
      MarkOther(c, d, unspent);
    }
  }

  lemma MarkOther(c: Coord, d: Coord, unspent: BitSet)
    requires d.h > 0
    ensures NodePos(c) == NodePos(d) <==> c == d
    ensures NodePos(c) == NodePos(LeftChild(d)) <==> c == LeftChild(d)
    ensures NodePos(c) == NodePos(RightChild(d)) <==> c == RightChild(d)
    ensures c == LeftChild(d) || c == RightChild(d) <==> c.h + 1 == d.h && c.i / 2 == d.i
    ensures c == LeftChild(d) || c == RightChild(d) ==> Parent(c) == d
  {
    hide NodePos;
    if NodePos(c) == NodePos(d) { NodePosInjective(c, d); }
    if NodePos(c) == NodePos(LeftChild(d)) { NodePosInjective(c, LeftChild(d)); }
    if NodePos(c) == NodePos(RightChild(d)) { NodePosInjective(c, RightChild(d)); }
  }

  /** When the next node of height h is not in the range, the whole height has been visited. */
  lemma MarkHeight(bits: BitSet, unspent: BitSet, h: nat, i: nat)
    requires Marks(bits, unspent, h, i) && !InRange(Coord(i, h), |unspent|)
    ensures Marks(bits, unspent, h + 1, 0)
  {
    hide NodePos, Prunable, InRange;
    forall c: Coord | NodePos(c) < |bits| ensures bits[NodePos(c)] <==> Marked(c, unspent, h + 1, 0) {
      assert bits[NodePos(c)] <==> Marked(c, unspent, h, i);
      if c.h == h && Prunable(c, unspent) { BeyondHeight(c.i, h, i, unspent); }
      if c.h + 1 == h && Prunable(Parent(c), unspent) { BeyondHeight(c.i / 2, h, i, unspent); }
    }
  }

  lemma BeyondHeight(k: nat, h: nat, i: nat, unspent: BitSet)
    requires !InRange(Coord(i, h), |unspent|) && Prunable(Coord(k, h), unspent)
    ensures k < i
  {
    if k >= i { ShlMono(i + 1, k + 1, h); }
  }

  /** When not even the first node of height h is in the range, the marks are the topmost prunable nodes. */
  lemma MarksDone(bits: BitSet, unspent: BitSet, h: nat)
    requires h > 0 && Marks(bits, unspent, h, 0) && !InRange(Coord(0, h), |unspent|)
    ensures forall c: Coord :: NodePos(c) < |bits| ==> (bits[NodePos(c)] <==> PrunedParent(c, unspent))
  {
    hide NodePos, Prunable, InRange;
    forall c: Coord | NodePos(c) < |bits| ensures bits[NodePos(c)] <==> PrunedParent(c, unspent) {
      assert bits[NodePos(c)] <==> Marked(c, unspent, h, 0);
      if c.h >= h && Prunable(c, unspent) { TooHigh(c, h, unspent); assert false; }
      if c.h + 1 >= h && Prunable(Parent(c), unspent) { TooHigh(Parent(c), h, unspent); assert false; }
    }
  }

  lemma TooHigh(c: Coord, h: nat, unspent: BitSet)
    requires c.h >= h && Prunable(c, unspent)
    ensures InRange(Coord(0, h), |unspent|)
  {
    Pow2Mono(h, c.h);
    ShlMono(1, c.i + 1, c.h);
  }

  /** The set bits are the positions of the topmost prunable nodes. */
  ghost predicate IsPrunedParents(bits: BitSet, unspent: BitSet) {
    && |bits| == 2 * |unspent|
    && forall c: Coord :: NodePos(c) < |bits| ==> (bits[NodePos(c)] <==> PrunedParent(c, unspent))
  }

  lemma NoMarks(unspent: BitSet, bits: BitSet)
    requires forall p :: 0 <= p < |bits| ==> !bits[p]
    ensures Marks(bits, unspent, 0, 0)
  {
  }

  method CalcPrunedParents(unspent: BitSet) returns (ret: BitSet)
    requires |unspent| <= MAX_LEAVES
    ensures IsPrunedParents(ret, unspent)
  {
    hide Marks, NodePos, LeafPos, Prunable, PopCount, InRange, Shl, EndLeaf;
    ghost var n := |unspent|;
    ret := seq(2 * |unspent|, _ => false);
    NoMarks(unspent, ret);
    var leafIdx := LeafIndexAt(0);
    var leaf := 0;
    while leaf < |unspent|
      invariant 0 <= leaf <= |unspent| && |ret| == 2 * n
      invariant leafIdx.position == LeafPos(leaf)
      invariant Marks(ret, unspent, 0, leaf)
    {
      LeafBelow(leaf, n);
      MarkLeaf(ret, unspent, leaf);
      if !unspent[leaf] {
        ret := ret[leafIdx.position := true];
      }
      leafIdx := LeafIndexAt(leaf + 1);
      leaf := leaf + 1;
    }
    LeavesEnd(n);
    MarkHeight(ret, unspent, 0, n);
    var lastNode := LeafIndexAt(|unspent|);

    var height := 1;
    FirstOfHeightPos(1);
    while Pow2(height + 1) - 2 <= lastNode.position
      invariant height >= 1 && |ret| == 2 * n && lastNode.position == LeafPos(n)
      invariant Marks(ret, unspent, height, 0)
      invariant NodePos(Coord(0, height)) == Pow2(height + 1) - 2
      decreases LeafPos(n) + 2 - Pow2(height + 1)
    {
      ret := PruneHeight(ret, unspent, height, lastNode.position);
      height := height + 1;
      FirstOfHeightPos(height);
    }
    LeafBound(n);
    InRangeIffBelow(Coord(0, height), n);
    MarksDone(ret, unspent, height);
  }

  /** The loop over the nodes of one height. */
  method PruneHeight(bits: BitSet, unspent: BitSet, height: nat, lastPosition: nat) returns (ret: BitSet)
    requires height >= 1 && |bits| == 2 * |unspent| && lastPosition == LeafPos(|unspent|)
    requires Marks(bits, unspent, height, 0)
    ensures |ret| == |bits| && Marks(ret, unspent, height + 1, 0)
  {
    hide Marks, NodePos, LeafPos, Prunable, PopCount, InRange, Shl, EndLeaf;
    ret := bits;
    ghost var n := |unspent|;
    var iter := new SiblingIter(height, lastPosition);
    var more := iter.Next();
    while more
      invariant iter.Valid() && iter.height == height && iter.lastPosition == lastPosition && iter.siblingNum > 0
      invariant more <==> iter.next.position <= lastPosition
      invariant iter.next == AtCoord(Coord(iter.siblingNum - 1, height))
      invariant |ret| == |bits| && Marks(ret, unspent, height, iter.siblingNum - 1)
      decreases lastPosition + 1 - iter.next.position
    {
      ghost var i := iter.siblingNum - 1;
      var node := iter.next;
      InnerBelow(i, height, n);
      AtCoordValid(Coord(i, height));
      MarkNode(ret, unspent, height, i);
      var right := node.GetRightChild();
      if Test(ret, right.position) {
        var left := node.GetLeftChild();
        if Test(ret, left.position) {
          ret := ret[right.position := false][left.position := false][node.position := true];
        }
      }
      SiblingAfter(i, height);
      more := iter.Next();
    }
    InRangeIffBelow(Coord(iter.siblingNum - 1, height), n);
    MarkHeight(ret, unspent, height, iter.siblingNum - 1);
  }

  lemma LeafBelow(leaf: nat, n: nat)
    requires leaf < n
    ensures LeafPos(leaf) < 2 * n
  {
  }

  lemma LeafBound(n: nat)
    ensures LeafPos(n) <= 2 * n
  {
  }

  lemma LeavesEnd(n: nat)
    ensures !InRange(Coord(n, 0), n)
  {
  }

  lemma FirstOfHeightPos(h: nat)
    ensures NodePos(Coord(0, h)) == Pow2(h + 1) - 2 && Pow2(h) < Pow2(h + 1)
  {
    RootPos(h);
  }

  /** An inner node up to the end of the range is in the range. */
  lemma InnerBelow(i: nat, h: nat, n: nat)
    requires h > 0 && NodePos(Coord(i, h)) <= LeafPos(n)
    ensures NodePos(Coord(i, h)) < 2 * n && InRange(Coord(i, h), n)
  {
    LeafNodePos(n);
    if NodePos(Coord(i, h)) == LeafPos(n) { NodePosInjective(Coord(i, h), Coord(n, 0)); }
    InRangeIffBelow(Coord(i, h), n);
  }

  // ---------- MMRFactory::CalcHashes ----------

  /** The nodes whose hashes are kept: those in the range that are not below a prunable node. */
  ghost predicate Kept(c: Coord, unspent: BitSet) {
    InRange(c, |unspent|) && !Prunable(Parent(c), unspent)
  }

  ghost predicate KeptAt(unspent: BitSet, p: nat) {
    Kept(NodeAt(p), unspent)
  }

  ghost function KeptBits(unspent: BitSet): (bits: BitSet)
    ensures |bits| == 2 * |unspent|
  {
    seq(2 * |unspent|, p requires p >= 0 => KeptAt(unspent, p))
  }

  /** A node is kept exactly when it is an unspent leaf, a topmost prunable node, or both its children are kept. */
  lemma KeptCases(c: Coord, unspent: BitSet)
    ensures c.h == 0 && Test(unspent, c.i) ==> Kept(c, unspent) && !PrunedParent(c, unspent)
    ensures PrunedParent(c, unspent) ==> Kept(c, unspent)
    ensures Kept(c, unspent) <==>
              (c.h == 0 && Test(unspent, c.i)) || PrunedParent(c, unspent) ||
              (c.h > 0 && Kept(LeftChild(c), unspent) && Kept(RightChild(c), unspent))
  {
    hide Prunable, InRange, Shl;
    PrunableParent(c, unspent);
    if Prunable(c, unspent) { PrunableInRange(c, unspent); }
    if c.h == 0 {
      PrunableLeaf(c.i, unspent);
      LeafInRange(c.i, |unspent|);
    } else {
      ParentOfChildren(c);
      InRangeChildren(c, |unspent|);
    }
  }

  lemma LeafInRange(i: nat, n: nat)
    ensures InRange(Coord(i, 0), n) <==> i < n
  {
    assert EndLeaf(Coord(i, 0)) == i + 1;
  }

  lemma InRangeChildren(c: Coord, n: nat)
    requires c.h > 0
    ensures InRange(c, n) <==> InRange(LeftChild(c), n) && InRange(RightChild(c), n)
  {
    LeafSpan(c);
  }

  ghost predicate PrunedParentAt(unspent: BitSet, p: nat) {
    PrunedParent(NodeAt(p), unspent)
  }

  ghost function PrunedBits(unspent: BitSet): (bits: BitSet)
    ensures |bits| == 2 * |unspent|
  {
    seq(2 * |unspent|, p requires p >= 0 => PrunedParentAt(unspent, p))
  }

  lemma PrunedBitsUnique(bits: BitSet, unspent: BitSet)
    requires IsPrunedParents(bits, unspent)
    ensures bits == PrunedBits(unspent)
  {
    hide PrunedParent, NodePos;
    forall p | 0 <= p < |bits| ensures bits[p] == PrunedBits(unspent)[p] {
      PosOfNodeAt(p);
      assert PrunedBits(unspent)[p] == PrunedParentAt(unspent, p);
    }
  }

  lemma PrunedBitAt(c: Coord, unspent: BitSet)
    requires NodePos(c) < 2 * |unspent|
    ensures Test(PrunedBits(unspent), NodePos(c)) <==> PrunedParent(c, unspent)
  {
    NodeAtPos(c);
  }

  /** The unspent leaves of the range, in order. */
  ghost predicate LeavesGiven(unspent: BitSet, leaves: seq<Leaf>, data: seq<Bytes>) {
    && |unspent| == |data|
    && forall l: nat :: l < |unspent| && unspent[l] ==>
         RankOf(unspent, l) < |leaves| && leaves[RankOf(unspent, l)] == CreateLeaf(l, data[l])
  }

  /** The hashes of the topmost prunable nodes of the range, by position. */
  ghost predicate HashesGiven(unspent: BitSet, hashes: seq<Hash>, data: seq<Bytes>) {
    && |unspent| == |data|
    && forall p: nat :: Test(PrunedBits(unspent), p) && p < LeafPos(|data|) ==>
         RankOf(PrunedBits(unspent), p) < |hashes| && hashes[RankOf(PrunedBits(unspent), p)] == HashAt(data, p)
  }

  /** The hashes found so far are those of the kept nodes before position p. */
  ghost predicate Rebuilt(ret: seq<Hash>, unspent: BitSet, data: seq<Bytes>, p: nat) {
    && |unspent| == |data|
    && |ret| == RankOf(KeptBits(unspent), p)
    && forall q: nat :: q < p && Test(KeptBits(unspent), q) && q < LeafPos(|data|) ==>
         RankOf(KeptBits(unspent), q) < |ret| && ret[RankOf(KeptBits(unspent), q)] == HashAt(data, q)
  }

  lemma KeptBitAt(c: Coord, unspent: BitSet)
    requires NodePos(c) < 2 * |unspent|
    ensures Test(KeptBits(unspent), NodePos(c)) <==> Kept(c, unspent)
    ensures Kept(c, unspent) ==> NodePos(c) < LeafPos(|unspent|)
  {
    NodeAtPos(c);
    InRangeIffBelow(c, |unspent|);
  }

  lemma RebuiltNext(ret: seq<Hash>, unspent: BitSet, data: seq<Bytes>, c: Coord, hash: Hash)
    requires NodePos(c) < 2 * |unspent| && Rebuilt(ret, unspent, data, NodePos(c))
    requires Kept(c, unspent) ==> NodePos(c) < LeafPos(|data|) && hash == HashAt(data, NodePos(c))
    ensures Rebuilt(if Kept(c, unspent) then ret + [hash] else ret, unspent, data, NodePos(c) + 1)
  {
    hide NodePos, Kept, HashAt, LeafPos;
    KeptBitAt(c, unspent);
    var bits := KeptBits(unspent);
    var after := if Kept(c, unspent) then ret + [hash] else ret;
    forall q: nat | q < NodePos(c) + 1 && Test(bits, q) && q < LeafPos(|data|)
      ensures RankOf(bits, q) < |after| && after[RankOf(bits, q)] == HashAt(data, q)
    {
      if q < NodePos(c) { RankMono(bits, q, NodePos(c)); }
    }
  }

  /** The bits set so far are the kept ones before position p. */
  ghost predicate KeptBefore(bits: BitSet, unspent: BitSet, p: nat) {
    && |bits| == 2 * |unspent|
    && forall q: nat :: q < |bits| ==> (bits[q] <==> q < p && Test(KeptBits(unspent), q))
  }

  lemma KeptBeforeNext(bits: BitSet, unspent: BitSet, c: Coord)
    requires NodePos(c) < 2 * |unspent| && KeptBefore(bits, unspent, NodePos(c))
    ensures KeptBefore(if Kept(c, unspent) then bits[NodePos(c) := true] else bits, unspent, NodePos(c) + 1)
  {
    hide NodePos, Kept, KeptBits;
    KeptBitAt(c, unspent);
  }

  /** Reading the hash of a child through the ranks of the bits set so far. */
  lemma ChildHash(bits: BitSet, ret: seq<Hash>, unspent: BitSet, data: seq<Bytes>, c: Coord, p: nat)
    requires |unspent| == |data| && NodePos(c) < p <= 2 * |unspent|
    requires KeptBefore(bits, unspent, p) && Rebuilt(ret, unspent, data, p)
    ensures Test(bits, NodePos(c)) <==> Kept(c, unspent)
    ensures Kept(c, unspent) ==>
              && NodePos(c) < LeafPos(|data|)
              && RankOf(bits, NodePos(c)) < |ret| && ret[RankOf(bits, NodePos(c))] == HashAt(data, NodePos(c))
  {
    hide NodePos, Kept, KeptBits, HashAt, LeafPos;
    KeptBitAt(c, unspent);
    RankPrefix(bits, KeptBits(unspent), NodePos(c));
  }

  lemma ParentHashAt(data: seq<Bytes>, c: Coord)
    requires c.h > 0 && InRange(c, |data|)
    ensures NodePos(c) < LeafPos(|data|) && NodePos(LeftChild(c)) < LeafPos(|data|) && NodePos(RightChild(c)) < LeafPos(|data|)
    ensures HashAt(data, NodePos(c))
         == ParentHash(NodePos(c), HashAt(data, NodePos(LeftChild(c))), HashAt(data, NodePos(RightChild(c))))
  {
    hide NodePos, HashAt, LeafPos;
    ChildrenInRange(c, |data|);
    HashAtCoord(data, c);
    HashAtCoord(data, LeftChild(c));
    HashAtCoord(data, RightChild(c));
  }

  lemma LeafHashAt(data: seq<Bytes>, l: nat)
    requires l < |data|
    ensures LeafPos(l) < LeafPos(|data|) && HashAt(data, LeafPos(l)) == CreateLeaf(l, data[l]).hash
  {
    LeafInRange(l, |data|);
    HashAtCoord(data, Coord(l, 0));
    LeafNodePos(l);
  }

  /** What the loop finds at one node: nothing, or the node's hash when it is kept. */
  lemma NodeCases(bits: BitSet, ret: seq<Hash>, unspent: BitSet, data: seq<Bytes>, c: Coord)
    requires |unspent| == |data| && NodePos(c) < 2 * |unspent|
    requires KeptBefore(bits, unspent, NodePos(c)) && Rebuilt(ret, unspent, data, NodePos(c))
    ensures c.h == 0 && Test(unspent, c.i) ==> Kept(c, unspent)
    ensures Test(PrunedBits(unspent), NodePos(c)) ==> Kept(c, unspent)
    ensures Kept(c, unspent) ==> InRange(c, |data|) && NodePos(c) < LeafPos(|data|)
    ensures c.h > 0 ==>
              && NodePos(LeftChild(c)) < NodePos(RightChild(c)) < NodePos(c)
              && (Test(bits, NodePos(LeftChild(c))) <==> Kept(LeftChild(c), unspent))
              && (Test(bits, NodePos(RightChild(c))) <==> Kept(RightChild(c), unspent))
    ensures Kept(c, unspent) ==>
              (c.h == 0 && Test(unspent, c.i)) || Test(PrunedBits(unspent), NodePos(c)) ||
              (c.h > 0 && Test(bits, NodePos(LeftChild(c))) && Test(bits, NodePos(RightChild(c))))
    ensures c.h > 0 && Test(bits, NodePos(LeftChild(c))) && Test(bits, NodePos(RightChild(c))) ==> Kept(c, unspent)
  {
    hide NodePos, LeafPos, KeptBits, PrunedBits, PrunedParent, Rebuilt;
    KeptCases(c, unspent);
    PrunedBitAt(c, unspent);
    KeptBitAt(c, unspent);
    if Kept(c, unspent) { assert InRange(c, |data|); }
    hide Kept, InRange;
    if c.h > 0 {
      ChildPositions(c);
      ChildHash(bits, ret, unspent, data, LeftChild(c), NodePos(c));
      ChildHash(bits, ret, unspent, data, RightChild(c), NodePos(c));
    }
  }

  lemma NothingRebuilt(unspent: BitSet, data: seq<Bytes>, bits: BitSet)
    requires |unspent| == |data| && |bits| == 2 * |unspent| && forall p :: 0 <= p < |bits| ==> !bits[p]
    ensures Rebuilt([], unspent, data, 0) && KeptBefore(bits, unspent, 0)
  {
  }

  /** The hash the loop computes for an inner node from the hashes of its children. */
  lemma InnerHash(bits: BitSet, ret: seq<Hash>, unspent: BitSet, data: seq<Bytes>, c: Coord)
    requires |unspent| == |data| && NodePos(c) < 2 * |unspent| && c.h > 0
    requires KeptBefore(bits, unspent, NodePos(c)) && Rebuilt(ret, unspent, data, NodePos(c))
    requires Kept(LeftChild(c), unspent) && Kept(RightChild(c), unspent) && InRange(c, |data|)
    ensures var l, r := RankOf(bits, NodePos(LeftChild(c))), RankOf(bits, NodePos(RightChild(c)));
      l < |ret| && r < |ret| && NodePos(c) < LeafPos(|data|) && HashAt(data, NodePos(c)) == ParentHash(NodePos(c), ret[l], ret[r])
  {
    hide NodePos, LeafPos, Kept, KeptBits, Rebuilt, KeptBefore, HashAt, InRange;
    ChildPositions(c);
    ChildHash(bits, ret, unspent, data, LeftChild(c), NodePos(c));
    ChildHash(bits, ret, unspent, data, RightChild(c), NodePos(c));
    ParentHashAt(data, c);
  }

  /**
    Given the unspent leaves and the hashes of the topmost prunable nodes of a range, the hashes of all kept nodes
    of that range in the order of their positions.
   */
  method CalcHashes(unspent: BitSet, leaves: seq<Leaf>, prunedParentHashes: seq<Hash>, ghost data: seq<Bytes>)
    returns (ret: seq<Hash>)
    requires |unspent| == |data| <= MAX_LEAVES
    requires LeavesGiven(unspent, leaves, data) && HashesGiven(unspent, prunedParentHashes, data)
    ensures Rebuilt(ret, unspent, data, 2 * |data|)
  {
    hide NodePos, LeafPos, Prunable, PopCount, InRange, Shl, EndLeaf, Kept, KeptBits, PrunedBits, Rebuilt, KeptBefore, HashAt, NodeAt;
    var pruned := CalcPrunedParents(unspent);
    PrunedBitsUnique(pruned, unspent);
    var numNodes := |unspent| * 2;
    var index := At(0);
    var bits := seq(|unspent| * 2, _ => false);
    ret := [];
    NothingRebuilt(unspent, data, bits);
    while index.position < numNodes
      invariant index.position <= numNodes == 2 * |data| && |bits| == numNodes
      invariant index == AtCoord(NodeAt(index.position)) && index.Valid()
      invariant KeptBefore(bits, unspent, index.position) && Rebuilt(ret, unspent, data, index.position)
      decreases numNodes - index.position
    {
      ghost var c := index.Coordinates();
      PosOfNodeAt(index.position);
      NodeCases(bits, ret, unspent, data, c);
      var pos := index.position;
      var hash := Zero;
      var found := false;
      var leaf := 0;
      if index.IsLeaf() {
        leaf := GetLeafIndex(index);
      }
      if index.IsLeaf() && Test(unspent, leaf) {
        var idx := Rank(unspent, leaf);
        LeafHashAt(data, leaf);
        hash, found := leaves[idx].hash, true;
      } else if Test(pruned, pos) {
        var idx := Rank(pruned, pos);
        hash, found := prunedParentHashes[idx], true;
      } else if !index.IsLeaf() {
        var right := index.GetRightChild();
        var left := index.GetLeftChild();
        if Test(bits, right.position) && Test(bits, left.position) {
          InnerHash(bits, ret, unspent, data, c);
          var leftIdx := Rank(bits, left.position);
          var rightIdx := Rank(bits, right.position);
          hash, found := ParentHash(pos, ret[leftIdx], ret[rightIdx]), true;
        }
      }
      assert found <==> Kept(c, unspent);
      RebuiltNext(ret, unspent, data, c, hash);
      KeptBeforeNext(bits, unspent, c);
      if found {
        ret := ret + [hash];
        bits := bits[pos := true];
      }
      index := At(index.position + 1);
    }
  }

  /** Nothing is kept at or past the end of the range, and every peak is kept. */
  lemma KeptNodes(unspent: BitSet, c: Coord)
    ensures Kept(c, unspent) ==> NodePos(c) < LeafPos(|unspent|)
    ensures c in Peaks(|unspent|) ==> Kept(c, unspent)
  {
    hide Peaks, PopCount, Shl;
    PeakIff(c, |unspent|);
    InRangeIffBelow(c, |unspent|);
  }

  // ---------- BuildCompactBitSet ----------

  /** Prunable in the range of the given number of leaves. */
  ghost predicate PrunableIn(c: Coord, unspent: BitSet, numLeaves: nat) {
    InRange(c, numLeaves) && Prunable(c, unspent)
  }

  /** The prunable nodes found when i nodes of height h have been visited, and those found below them. */
  ghost predicate Visited(c: Coord, h: nat, i: nat) {
    c.h < h || (c.h == h && c.i < i)
  }

  ghost predicate FoundPrunable(bits: BitSet, unspent: BitSet, n: nat, h: nat, i: nat) {
    forall c: Coord :: NodePos(c) < |bits| ==> (bits[NodePos(c)] <==> Visited(c, h, i) && PrunableIn(c, unspent, n))
  }

  ghost predicate FoundCompact(bits: BitSet, unspent: BitSet, n: nat, h: nat, i: nat) {
    forall c: Coord :: NodePos(c) < |bits| ==>
      (bits[NodePos(c)] <==> Visited(Parent(c), h, i) && PrunableIn(Parent(c), unspent, n))
  }

  /** The set bits are the nodes below a prunable node, whose hashes are removed. */
  ghost predicate IsCompact(bits: BitSet, unspent: BitSet, n: nat) {
    |bits| == 2 * n && forall c: Coord :: NodePos(c) < |bits| ==> (bits[NodePos(c)] <==> PrunableIn(Parent(c), unspent, n))
  }

  lemma PrunableInChildren(c: Coord, unspent: BitSet, n: nat)
    requires c.h > 0
    ensures PrunableIn(c, unspent, n) <==> PrunableIn(LeftChild(c), unspent, n) && PrunableIn(RightChild(c), unspent, n)
  {
    hide Prunable, InRange;
    PrunableChildren(c, unspent);
    InRangeChildren(c, n);
  }

  lemma CompactLeaf(bits: BitSet, unspent: BitSet, n: nat, i: nat)
    requires FoundPrunable(bits, unspent, n, 0, i) && i < n && LeafPos(i) < |bits|
    ensures FoundPrunable(if i < |unspent| && !Test(unspent, i) then bits[LeafPos(i) := true] else bits, unspent, n, 0, i + 1)
  {
    hide NodePos, LeafPos, Prunable, InRange;
    PrunableLeaf(i, unspent);
    LeafInRange(i, n);
    LeafNodePos(i);
    var after := if i < |unspent| && !Test(unspent, i) then bits[LeafPos(i) := true] else bits;
    forall c: Coord | NodePos(c) < |after| ensures after[NodePos(c)] <==> Visited(c, 0, i + 1) && PrunableIn(c, unspent, n) {
      if NodePos(c) == LeafPos(i) { NodePosInjective(c, Coord(i, 0)); }
      assert bits[NodePos(c)] <==> Visited(c, 0, i) && PrunableIn(c, unspent, n);
    }
  }

  lemma CompactNode(prunable: BitSet, compact: BitSet, unspent: BitSet, n: nat, h: nat, i: nat)
    requires h > 0 && |prunable| == |compact| && NodePos(Coord(i, h)) < |prunable|
    requires FoundPrunable(prunable, unspent, n, h, i) && FoundCompact(compact, unspent, n, h, i)
    ensures var d := Coord(i, h);
      && NodePos(LeftChild(d)) < NodePos(RightChild(d)) < NodePos(d)
      && (prunable[NodePos(LeftChild(d))] && prunable[NodePos(RightChild(d))] <==> PrunableIn(d, unspent, n))
      && FoundPrunable(if PrunableIn(d, unspent, n) then prunable[NodePos(d) := true] else prunable, unspent, n, h, i + 1)
      && FoundCompact(if PrunableIn(d, unspent, n)
                      then compact[NodePos(RightChild(d)) := true][NodePos(LeftChild(d)) := true] else compact,
                      unspent, n, h, i + 1)
  {
    hide NodePos, Prunable, InRange, PrunableIn;
    var d := Coord(i, h);
    ChildPositions(d);
    PrunableInChildren(d, unspent, n);
    ParentOfChildren(d);
    var p := if PrunableIn(d, unspent, n) then prunable[NodePos(d) := true] else prunable;
    var k := if PrunableIn(d, unspent, n)
      then compact[NodePos(RightChild(d)) := true][NodePos(LeftChild(d)) := true] else compact;
    forall c: Coord | NodePos(c) < |p|
      ensures p[NodePos(c)] <==> Visited(c, h, i + 1) && PrunableIn(c, unspent, n)
      ensures k[NodePos(c)] <==> Visited(Parent(c), h, i + 1) && PrunableIn(Parent(c), unspent, n)
    {
      assert prunable[NodePos(c)] <==> Visited(c, h, i) && PrunableIn(c, unspent, n);
      assert compact[NodePos(c)] <==> Visited(Parent(c), h, i) && PrunableIn(Parent(c), unspent, n);
      MarkOther(c, d, unspent);
    }
  }

  lemma CompactHeight(prunable: BitSet, compact: BitSet, unspent: BitSet, n: nat, h: nat, i: nat)
    requires |prunable| == |compact| && !InRange(Coord(i, h), n)
    requires FoundPrunable(prunable, unspent, n, h, i) && FoundCompact(compact, unspent, n, h, i)
    ensures FoundPrunable(prunable, unspent, n, h + 1, 0) && FoundCompact(compact, unspent, n, h + 1, 0)
  {
    hide NodePos, Prunable, InRange;
    forall c: Coord | NodePos(c) < |prunable|
      ensures prunable[NodePos(c)] <==> Visited(c, h + 1, 0) && PrunableIn(c, unspent, n)
      ensures compact[NodePos(c)] <==> Visited(Parent(c), h + 1, 0) && PrunableIn(Parent(c), unspent, n)
    {
      assert prunable[NodePos(c)] <==> Visited(c, h, i) && PrunableIn(c, unspent, n);
      assert compact[NodePos(c)] <==> Visited(Parent(c), h, i) && PrunableIn(Parent(c), unspent, n);
      if c.h == h && InRange(c, n) { BeyondRange(c.i, h, i, n); }
      if c.h + 1 == h && InRange(Parent(c), n) { BeyondRange(c.i / 2, h, i, n); }
    }
  }

  lemma BeyondRange(k: nat, h: nat, i: nat, n: nat)
    requires !InRange(Coord(i, h), n) && InRange(Coord(k, h), n)
    ensures k < i
  {
    if k >= i { ShlMono(i + 1, k + 1, h); }
  }

  lemma CompactDone(bits: BitSet, unspent: BitSet, n: nat, h: nat)
    requires |bits| == 2 * n && FoundCompact(bits, unspent, n, h, 0) && !InRange(Coord(0, h), n)
    ensures IsCompact(bits, unspent, n)
  {
    hide NodePos, Prunable, InRange;
    forall c: Coord | NodePos(c) < |bits| ensures bits[NodePos(c)] <==> PrunableIn(Parent(c), unspent, n) {
      assert bits[NodePos(c)] <==> Visited(Parent(c), h, 0) && PrunableIn(Parent(c), unspent, n);
      if c.h + 1 >= h && InRange(Parent(c), n) { TooHighFor(Parent(c), h, n); assert false; }
    }
  }

  lemma TooHighFor(c: Coord, h: nat, n: nat)
    requires c.h >= h && InRange(c, n)
    ensures InRange(Coord(0, h), n)
  {
    Pow2Mono(h, c.h);
    ShlMono(1, c.i + 1, c.h);
  }

  lemma NothingFound(bits: BitSet, unspent: BitSet, n: nat)
    requires forall p :: 0 <= p < |bits| ==> !bits[p]
    ensures FoundPrunable(bits, unspent, n, 0, 0) && FoundCompact(bits, unspent, n, 0, 0)
  {
  }

  lemma CompactBeforeParents(bits: BitSet, unspent: BitSet, n: nat, i: nat)
    requires FoundCompact(bits, unspent, n, 0, 0)
    ensures FoundCompact(bits, unspent, n, 0, i)
  {
  }

  method BuildCompactBitSet(numLeaves: nat, unspent: BitSet) returns (compact: BitSet)
    requires numLeaves <= MAX_LEAVES
    ensures IsCompact(compact, unspent, numLeaves)
  {
    hide FoundPrunable, FoundCompact, IsCompact, NodePos, LeafPos, Prunable, PopCount, InRange, Shl, EndLeaf;
    compact := seq(numLeaves * 2, _ => false);
    var prunable := seq(numLeaves * 2, _ => false);
    NothingFound(compact, unspent, numLeaves);
    NothingFound(prunable, unspent, numLeaves);
    var leafIdx := LeafIndexAt(0);
    var leaf := 0;
    while leaf < numLeaves
      invariant 0 <= leaf <= numLeaves && |prunable| == 2 * numLeaves
      invariant leafIdx.position == LeafPos(leaf)
      invariant FoundPrunable(prunable, unspent, numLeaves, 0, leaf)
    {
      LeafBelow(leaf, numLeaves);
      CompactLeaf(prunable, unspent, numLeaves, leaf);
      if |unspent| > leaf && !Test(unspent, leaf) {
        prunable := prunable[leafIdx.position := true];
      }
      leafIdx := LeafIndexAt(leaf + 1);
      leaf := leaf + 1;
    }
    LeavesEnd(numLeaves);
    CompactBeforeParents(compact, unspent, numLeaves, numLeaves);
    CompactHeight(prunable, compact, unspent, numLeaves, 0, numLeaves);

    var nextLeaf := LeafIndexAt(numLeaves);
    LeafBound(numLeaves);
    var height := 1;
    FirstOfHeightPos(1);
    while Pow2(height + 1) - 2 <= nextLeaf.position
      invariant height >= 1 && |prunable| == |compact| == 2 * numLeaves && nextLeaf.position == LeafPos(numLeaves)
      invariant FoundPrunable(prunable, unspent, numLeaves, height, 0) && FoundCompact(compact, unspent, numLeaves, height, 0)
      invariant NodePos(Coord(0, height)) == Pow2(height + 1) - 2
      decreases LeafPos(numLeaves) + 2 - Pow2(height + 1)
    {
      InnerBelow(0, height, numLeaves);
      InRangeIffBelow(Coord(0, height), numLeaves);
      prunable, compact := CompactOneHeight(prunable, compact, unspent, numLeaves, height, nextLeaf.position - 1);
      height := height + 1;
      FirstOfHeightPos(height);
    }
    InRangeIffBelow(Coord(0, height), numLeaves);
    CompactDone(compact, unspent, numLeaves, height);
  }

  /** The loop over the nodes of one height. */
  method CompactOneHeight(prunableBefore: BitSet, compactBefore: BitSet, ghost unspent: BitSet, ghost n: nat,
                          height: nat, lastPosition: nat)
    returns (prunable: BitSet, compact: BitSet)
    requires height >= 1 && |prunableBefore| == |compactBefore| == 2 * n && lastPosition + 1 == LeafPos(n)
    requires FoundPrunable(prunableBefore, unspent, n, height, 0) && FoundCompact(compactBefore, unspent, n, height, 0)
    ensures |prunable| == |compact| == 2 * n
    ensures FoundPrunable(prunable, unspent, n, height + 1, 0) && FoundCompact(compact, unspent, n, height + 1, 0)
  {
    hide FoundPrunable, FoundCompact, NodePos, LeafPos, Prunable, PopCount, InRange, Shl, EndLeaf;
    prunable, compact := prunableBefore, compactBefore;
    var iter := new SiblingIter(height, lastPosition);
    var more := iter.Next();
    while more
      invariant iter.Valid() && iter.height == height && iter.lastPosition == lastPosition && iter.siblingNum > 0
      invariant more <==> iter.next.position <= lastPosition
      invariant iter.next == AtCoord(Coord(iter.siblingNum - 1, height))
      invariant |prunable| == |compact| == 2 * n
      invariant FoundPrunable(prunable, unspent, n, height, iter.siblingNum - 1)
      invariant FoundCompact(compact, unspent, n, height, iter.siblingNum - 1)
      decreases lastPosition + 1 - iter.next.position
    {
      ghost var i := iter.siblingNum - 1;
      var node := iter.next;
      InnerBelow(i, height, n);
      AtCoordValid(Coord(i, height));
      CompactNode(prunable, compact, unspent, n, height, i);
      var right := node.GetRightChild();
      if Test(prunable, right.position) {
        var left := node.GetLeftChild();
        if Test(prunable, left.position) {
          compact := compact[right.position := true][left.position := true];
          prunable := prunable[node.position := true];
        }
      }
      SiblingAfter(i, height);
      more := iter.Next();
    }
    InRangeIffBelow(Coord(iter.siblingNum - 1, height), n);
    CompactHeight(prunable, compact, unspent, n, height, iter.siblingNum - 1);
  }

  // ---------- reading a rebuilt range through a prune list ----------

  /** In the range, a node is kept or compacted, but not both. */
  lemma KeptOrCompact(compact: BitSet, unspent: BitSet, p: nat)
    requires IsCompact(compact, unspent, |unspent|) && p < LeafPos(|unspent|)
    ensures Test(KeptBits(unspent), p) <==> !Test(compact, p)
  {
    hide NodePos, LeafPos, InRange, Prunable, KeptBits;
    var c := NodeAt(p);
    PosOfNodeAt(p);
    LeafBound(|unspent|);
    InRangeIffBelow(c, |unspent|);
    KeptBitAt(c, unspent);
    assert compact[NodePos(c)] <==> PrunableIn(Parent(c), unspent, |unspent|);
    if Prunable(Parent(c), unspent) { PrunableInRange(Parent(c), unspent); }
  }

  lemma {:induction false} RankComplement(compact: BitSet, unspent: BitSet, p: nat)
    requires IsCompact(compact, unspent, |unspent|) && p <= LeafPos(|unspent|)
    ensures RankOf(KeptBits(unspent), p) + RankOf(compact, p) == p
  {
    hide IsCompact, KeptBits, LeafPos;
    if p > 0 {
      RankComplement(compact, unspent, p - 1);
      KeptOrCompact(compact, unspent, p - 1);
    }
  }

  lemma {:induction false} NothingAfter(bits: BitSet, p: nat, q: nat)
    requires p <= q && forall j :: p <= j < q ==> !Test(bits, j)
    ensures RankOf(bits, q) == RankOf(bits, p)
  {
    if p < q { NothingAfter(bits, p, q - 1); }
  }

  /**
    The hashes CalcHashes rebuilds, read through a prune list made of the bits of BuildCompactBitSet, are those of
    the whole range: a kept node lies at its position less the number of compacted positions before it, the number
    of hashes and compacted positions together is the size of the range, and every peak can be read.
   */
  lemma RebuiltReads(ret: seq<Hash>, unspent: BitSet, data: seq<Bytes>, compact: BitSet, c: Coord)
    requires |unspent| == |data| && Rebuilt(ret, unspent, data, 2 * |data|) && IsCompact(compact, unspent, |data|)
    ensures |ret| + RankOf(compact, |compact|) == LeafPos(|data|)
    ensures Kept(c, unspent) ==>
              && NodePos(c) < LeafPos(|data|)
              && 0 <= NodePos(c) - RankOf(compact, NodePos(c)) < |ret|
              && ret[NodePos(c) - RankOf(compact, NodePos(c))] == HashAt(data, NodePos(c))
    ensures c in Peaks(|data|) ==> Kept(c, unspent)
  {
    hide NodePos, LeafPos, Kept, KeptBits, HashAt, InRange, Peaks, Rebuilt, IsCompact;
    var n := |data|;
    LeafBound(n);
    KeptNodes(unspent, c);
    RebuiltAt(ret, unspent, data, c);
    RankComplement(compact, unspent, LeafPos(n));
    NothingKeptAfter(unspent);
    NothingCompactAfter(compact, unspent, n);
    if Kept(c, unspent) {
      RankComplement(compact, unspent, NodePos(c));
    }
  }

  lemma RebuiltAt(ret: seq<Hash>, unspent: BitSet, data: seq<Bytes>, c: Coord)
    requires Rebuilt(ret, unspent, data, 2 * |data|)
    ensures |ret| == RankOf(KeptBits(unspent), 2 * |data|)
    ensures Kept(c, unspent) ==>
              && NodePos(c) < LeafPos(|data|) && RankOf(KeptBits(unspent), NodePos(c)) < |ret|
              && ret[RankOf(KeptBits(unspent), NodePos(c))] == HashAt(data, NodePos(c))
  {
    hide NodePos, LeafPos, Kept, KeptBits, HashAt;
    LeafBound(|data|);
    KeptNodes(unspent, c);
    if Kept(c, unspent) { KeptBitAt(c, unspent); }
  }

  lemma NothingKeptAfter(unspent: BitSet)
    ensures RankOf(KeptBits(unspent), 2 * |unspent|) == RankOf(KeptBits(unspent), LeafPos(|unspent|))
  {
    hide LeafPos, NodePos, Kept;
    LeafBound(|unspent|);
    forall j | LeafPos(|unspent|) <= j < 2 * |unspent| ensures !Test(KeptBits(unspent), j) {
      PosOfNodeAt(j);
      KeptBitAt(NodeAt(j), unspent);
    }
    NothingAfter(KeptBits(unspent), LeafPos(|unspent|), 2 * |unspent|);
  }

  lemma NothingCompactAfter(compact: BitSet, unspent: BitSet, n: nat)
    requires IsCompact(compact, unspent, n)
    ensures forall p: nat :: p >= LeafPos(n) ==> !Test(compact, p)
    ensures RankOf(compact, |compact|) == RankOf(compact, LeafPos(n))
  {
    hide LeafPos, NodePos, InRange, Prunable;
    LeafBound(n);
    forall p: nat | p >= LeafPos(n) ensures !Test(compact, p) {
      var c := NodeAt(p);
      PosOfNodeAt(p);
      InRangeIffBelow(c, n);
      if InRange(Parent(c), n) { ChildOfParent(c); InRangeChildren(Parent(c), n); assert false; }
    }
    NothingAfter(compact, LeafPos(n), |compact|);
  }

  // ---------- a state as it is sent and as it is read back ----------

  /** Every position whose hash is asked for belongs to a node of the first n leaves. */
  ghost predicate PrunedWithin(bits: BitSet, n: nat) {
    forall p: nat :: Test(bits, p) ==> p < LeafPos(n)
  }

  /** From a prunable node outside the range, the climb to the topmost prunable one stays outside. */
  lemma {:induction false} ClimbOutside(c: Coord, unspent: BitSet, n: nat) returns (d: Coord)
    requires Prunable(c, unspent) && !InRange(c, n)
    ensures PrunedParent(d, unspent) && !InRange(d, n)
    decreases LeafPos(|unspent|) - NodePos(c)
  {
    hide NodePos, LeafPos, InRange, Prunable;
    d := c;
    if Prunable(Parent(c), unspent) {
      PrunableInRange(c, unspent);
      InRangeIffBelow(c, |unspent|);
      ChildOfParent(c);
      ChildPositions(Parent(c));
      InRangeChildren(Parent(c), n);
      d := ClimbOutside(Parent(c), unspent, n);
    }
  }

  /** With spent leaves appended, the hash of a node past the range is asked for. */
  lemma AppendedAsksPast(unspent: BitSet, k: nat) returns (d: Coord)
    requires k > 0
    ensures PrunedParent(d, unspent + Zeros(k)) && LeafPos(|unspent|) <= NodePos(d) < 2 * (|unspent| + k)
    ensures Test(PrunedBits(unspent + Zeros(k)), NodePos(d))
  {
    hide NodePos, LeafPos, InRange, Prunable, PrunedBits;
    var n := |unspent|;
    var padded := unspent + Zeros(k);
    PrunableLeaf(n + k - 1, padded);
    LeafInRange(n + k - 1, n);
    d := ClimbOutside(Coord(n + k - 1, 0), padded, n);
    InRangeIffBelow(d, n);
    PrunableInRange(d, padded);
    InRangeIffBelow(d, n + k);
    LeafBound(n + k);
    PrunedBitAt(d, padded);
  }

  /**
    The topmost prunable nodes of a bit set with zeros appended lie within the range of the bit set itself
    exactly when nothing was appended.
   */
  lemma AppendedIff(unspent: BitSet, k: nat)
    ensures PrunedWithin(PrunedBits(unspent + Zeros(k)), |unspent|) <==> k == 0
  {
    hide NodePos, LeafPos, InRange, Prunable, PrunedBits;
    if k == 0 {
      assert unspent + Zeros(0) == unspent;
      forall p: nat | Test(PrunedBits(unspent), p) ensures p < LeafPos(|unspent|) {
        var c := NodeAt(p);
        PosOfNodeAt(p);
        PrunedBitAt(c, unspent);
        PrunableInRange(c, unspent);
        InRangeIffBelow(c, |unspent|);
      }
    } else {
      var d := AppendedAsksPast(unspent, k);
    }
  }

  /**
    A bit set that was written to bytes and read back asks for hashes of the range only exactly when the number
    of leaves is a multiple of eight, and then it is the bit set that was written.
   */
  lemma ReadBackIff(unspent: BitSet, bytes: seq<Byte>)
    requires BitsOf(bytes) == unspent + Zeros(Padding(|unspent|))
    ensures PrunedWithin(PrunedBits(BitsOf(bytes)), |unspent|) <==> |unspent| % 8 == 0
    ensures BitsOf(bytes) == unspent <==> |unspent| % 8 == 0
  {
    AppendedIff(unspent, Padding(|unspent|));
  }

  /** The hashes sent with a state: those of the topmost prunable nodes, read from an MMR that holds every hash. */
  method LookupParentHashes(unspent: BitSet, hashes: seq<Hash>, ghost data: seq<Bytes>) returns (ret: seq<Hash>)
    requires |unspent| == |data| <= MAX_LEAVES
    requires |hashes| == LeafPos(|data|) && HashesMatch(hashes, 0, data)
    ensures |ret| == RankOf(PrunedBits(unspent), 2 * |unspent|)
    ensures HashesGiven(unspent, ret, data)
  {
    hide PrunedBits, LeafPos, HashAt, IsPrunedParents;
    var pruned := CalcPrunedParents(unspent);
    PrunedBitsUnique(pruned, unspent);
    assert unspent + Zeros(0) == unspent;
    AppendedIff(unspent, 0);
    ret := [];
    var i := 0;
    while i < |pruned|
      invariant 0 <= i <= |pruned| && |ret| == RankOf(pruned, i)
      invariant forall p: nat :: p < i && Test(pruned, p) ==>
                  RankOf(pruned, p) < |ret| && ret[RankOf(pruned, p)] == HashAt(data, p)
    {
      if pruned[i] {
        assert Test(pruned, i);
        ret := ret + [hashes[i]];
      }
      i := i + 1;
    }
  }

  /** One unspent leaf in a tree of height k: the topmost prunable nodes are the siblings on its way up. */
  lemma OneUnspent(k: nat, c: Coord)
    ensures PrunedParent(c, [true] + Zeros(Ones(k))) <==> c.i == 1 && c.h < k
  {
    hide Pow2, InRange, Prunable;
    OneUnspentPrunable(k, c);
    OneUnspentPrunable(k, Parent(c));
    Pow2Zero();
    if c.h < k { Pow2Step(k - c.h - 1); }
  }

  lemma OneUnspentPrunable(k: nat, c: Coord)
    ensures Prunable(c, [true] + Zeros(Ones(k))) <==> c.h <= k && 1 <= c.i < Pow2(k - c.h)
  {
    hide Pow2, Shl;
    var unspent := [true] + Zeros(Ones(k));
    InPerfectTree(c.i, c.h, k);
    FirstStarts(c);
    TreeSpan(c);
    if InRange(c, |unspent|) && c.i == 0 { assert Test(unspent, 0) && StartLeaf(c) == 0 < EndLeaf(c); }
  }

  lemma FirstStarts(c: Coord)
    ensures StartLeaf(c) == 0 <==> c.i == 0
  {
    hide Shl;
    if c.i == 0 { StartOfFirst(c.h); }
  }

  lemma Pow2Step(k: nat)
    ensures Pow2(k + 1) == 2 * Pow2(k)
  {
  }

  /** The second node of height h is the last one before the root of the tree above it. */
  lemma SecondPos(h: nat)
    ensures NodePos(Coord(1, h)) + 3 == 4 * Pow2(h)
  {
    hide NodePos;
    RootPos(h + 1);
    ChildPositions(Coord(0, h + 1));
  }

  /** The positions asked for when one leaf of a tree of 2^k leaves is unspent. */
  lemma OneUnspentAsks(k: nat, p: nat)
    ensures Test(PrunedBits([true] + Zeros(Ones(k))), p) <==> exists h: nat :: h < k && NodePos(Coord(1, h)) == p
  {
    hide NodePos, PrunedParent, PrunedBits, Pow2;
    var unspent := [true] + Zeros(Ones(k));
    var c := NodeAt(p);
    PosOfNodeAt(p);
    if p < 2 * |unspent| { PrunedBitAt(c, unspent); }
    OneUnspent(k, c);
    forall h: nat | h < k && NodePos(Coord(1, h)) == p ensures c == Coord(1, h) && p < 2 * |unspent| {
      NodePosInjective(c, Coord(1, h));
      SecondPos(h);
      Pow2Step(h);
      Pow2Mono(h + 1, k);
    }
  }

  /**
    A range of one unspent leaf needs no hashes, and none are sent with it. Read back from its byte, the bit set
    has eight bits, and hashes are asked for at the positions 1, 5 and 13 of a range of one node.
   */
  lemma OneLeafReadBack(bytes: seq<Byte>, p: nat)
    requires BitsOf(bytes) == [true] + Zeros(Padding(1))
    ensures !Test(PrunedBits([true]), p)
    ensures Test(PrunedBits(BitsOf(bytes)), p) <==> p == 1 || p == 5 || p == 13
    ensures LeafPos(1) == 1
  {
    hide NodePos, PrunedBits, LeafPos, Pow2;
    SmallTrees();
    assert [true] + Zeros(Ones(0)) == [true];
    OneUnspentAsks(0, p);
    OneUnspentAsks(3, p);
  }

  lemma SmallTrees()
    ensures Ones(0) == 0 && Ones(3) == 7 && LeafPos(1) == 1
    ensures NodePos(Coord(1, 0)) == 1 && NodePos(Coord(1, 1)) == 5 && NodePos(Coord(1, 2)) == 13
  {
    hide *;
    SmallPowers();
    LeafPosPow2(0);
    SecondPos(0);
    SecondPos(1);
    SecondPos(2);
  }

  lemma SmallPowers()
    ensures Pow2(0) == 1 && Pow2(1) == 2 && Pow2(2) == 4
    ensures Ones(0) == 0 && Ones(3) == 7
  {
    hide Pow2;
    Pow2Zero();
    Pow2Step(0);
    Pow2Step(1);
    Pow2Step(2);
  }
}
