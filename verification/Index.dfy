/** mmr::Index and mmr::LeafIndex: a node position with its height, and the arithmetic between nodes. */
module Indices {
  import opened Bits
  import opened Positions

  /** Positions the 64-bit arithmetic of this module handles without wrapping. */
  const MAX_POSITION: nat := 0x4000_0000_0000_0000

  datatype Index = Index(position: nat, height: nat) {
    /** The height stored with the position is the height of the node there. */
    ghost predicate Valid() {
      height == NodeAt(position).h
    }

    predicate IsLeaf() { height == 0 }

    ghost function Coordinates(): Coord { NodeAt(position) }

    function GetLeftChild(): (child: Index)
      requires Valid() && height > 0
      ensures child == AtCoord(LeftChild(Coordinates()))
      ensures child.position < position
    {
      var c := Coordinates();
      PosOfNodeAt(position);
      ChildPositions(c);
      Index(position - Pow2(height), height - 1)
    }

    function GetRightChild(): (child: Index)
      requires Valid() && height > 0
      ensures child == AtCoord(RightChild(Coordinates()))
      ensures child.position < position
    {
      PosOfNodeAt(position);
      ChildPositions(Coordinates());
      Index(position - 1, height - 1)
    }
  }

  ghost function AtCoord(c: Coord): Index {
    Index(NodePos(c), c.h)
  }

  lemma AtCoordValid(c: Coord)
    ensures AtCoord(c).Valid() && AtCoord(c).Coordinates() == c
  {
    NodeAtPos(c);
  }

  // ---------- Index::CalculateHeight ----------

  /**
    The state of the height computation for a node of height h when the peak size 2^k - 1 is tested next:
    either v is the position of a node of height h inside the perfect tree of height k, or h > k and v
    has been shifted past every tree of height k.
   */
  ghost predicate HeightState(h: nat, v: nat, k: nat) {
    (exists i: nat :: InTree(i, h, v, k)) || (h > k && v + k + 2 == 2 * Pow2(k) + h)
  }

  ghost predicate InTree(i: nat, h: nat, v: nat, k: nat) {
    v == NodePos(Coord(i, h)) && EndLeaf(Coord(i, h)) <= Pow2(k)
  }

  lemma InTreeBounds(i: nat, h: nat, v: nat, k: nat)
    requires InTree(i, h, v, k)
    ensures h <= k && i < Pow2(k - h)
    ensures v < 2 * Pow2(k) - 1
    ensures h == k ==> i == 0 && v == 2 * Pow2(k) - 2
  {
    hide Shl, NodePos;
    InRangeIffBelow(Coord(i, h), Pow2(k));
    LeafPosPow2(k);
    InPerfectTree(i, h, k);
    RootPos(h);
    assert h == k ==> i == 0 by { assert Pow2(0) == 1 by { Pow2Zero(); } }
  }

  /** The root of the first perfect tree of height k is its last node. */
  lemma RootPos(k: nat)
    ensures NodePos(Coord(0, k)) == 2 * Pow2(k) - 2
  {
  }

  /** A node in the left half of the perfect tree of height k is not moved, any other node is moved. */
  lemma InTreeStep(i: nat, h: nat, v: nat, k: nat)
    requires k > 0 && InTree(i, h, v, k)
    ensures v < Ones(k) ==> InTree(i, h, v, k - 1)
    ensures v >= Ones(k) && h < k ==> i >= Pow2(k - 1 - h) && InTree(i - Pow2(k - 1 - h), h, v - Ones(k), k - 1)
    ensures v >= Ones(k) && h >= k ==> h == k && v == 2 * Pow2(k) - 2
  {
    hide PopCount, NodePos, EndLeaf;
    InTreeBounds(i, h, v, k);
    InRangeIffBelow(Coord(i, h), Pow2(k - 1));
    LeafPosPow2(k - 1);
    if v >= Ones(k) && h < k {
      InPerfectTree(i, h, k - 1);
      NodePosSplit(i - Pow2(k - 1 - h), h, k - 1);
    }
  }

  /** One iteration: subtract the peak size 2^k - 1 when it fits. */
  lemma HeightStep(h: nat, v: nat, k: nat)
    requires k > 0 && HeightState(h, v, k)
    ensures HeightState(h, if v >= Ones(k) then v - Ones(k) else v, k - 1)
  {
    if i: nat :| InTree(i, h, v, k) {
      InTreeStep(i, h, v, k);
    }
  }

  lemma HeightStart(p: nat)
    ensures HeightState(NodeAt(p).h, p, Len(p + 1))
  {
    var c := NodeAt(p);
    var k := Len(p + 1);
    PosOfNodeAt(p);
    LenBounds(p + 1);
    LeafPosPow2(k);
    InRangeIffBelow(c, Pow2(k));
    assert InTree(c.i, c.h, p, k);
  }

  lemma HeightEnd(h: nat, v: nat)
    requires HeightState(h, v, 0)
    ensures v == h
  {
    if i: nat :| InTree(i, h, v, 0) {
      InTreeBounds(i, h, v, 0);
    }
  }

  lemma HalfWord(k: nat)
    requires k == 63
    ensures Pow2(k) == U64 / 2 && Pow2(k) % 2 == 0
  {
    Pow2Of64();
    assert Pow2(k + 1) == 2 * Pow2(k) && Pow2(k) == 2 * Pow2(k - 1);
  }

  /** The first perfect tree of height k, and the leaf after it. */
  lemma AfterTree(k: nat)
    ensures NodeAt(2 * Pow2(k) - 2) == Coord(0, k)
    ensures NodeAt(2 * Pow2(k) - 1) == Coord(Pow2(k), 0)
  {
    RootPos(k);
    NodeAtPos(Coord(0, k));
    assert EndLeaf(Coord(0, k)) == Pow2(k);
    hide Pow2, NodePos, EndLeaf;
    assert NodeAt(2 * Pow2(k) - 1) == Succ(NodeAt(2 * Pow2(k) - 2));
  }

  /** The first perfect tree of height 63 takes up all positions but the last one. */
  lemma LastPositions(p: nat)
    ensures p == U64 - 2 ==> NodeAt(p) == Coord(0, 63)
    ensures p == U64 - 1 ==> NodeAt(p) == Coord(U64 / 2, 0)
  {
    var k := 63;
    AfterTree(k);
    HalfWord(k);
    hide Pow2, NodeAt;
    assert 2 * Pow2(k) == U64;
  }

  /**
    The height of the node at the position, by the greedy subtraction of peak sizes. At the last position the
    increment wraps around, no peak size is found, and the position itself is returned.
   */
  method CalculateHeight(position: nat) returns (height: nat)
    requires position < U64
    ensures height == if position == U64 - 1 then position else NodeAt(position).h
    ensures height == NodeAt(position).h <==> position != U64 - 1
  {
    ghost var h := NodeAt(position).h;
    ghost var k := Len(position + 1);
    HeightStart(position);
    LastPositions(position);
    NoOnes();
    WordOf(position + 1);
    hide Word, NodeAt, HeightState, Len, Pow2, Ones;

    height := position;
    var peakSize := FillOnesToRight(Word(position + 1));
    while peakSize != 0
      invariant position == U64 - 1 ==> peakSize == 0 && height == position
      invariant position != U64 - 1 ==> peakSize == Ones(k) && HeightState(h, height, k)
      decreases peakSize
    {
      HeightStep(h, height, k);
      HalfOfOnes(k);
      if height >= peakSize {
        height := height - peakSize;
      }
      peakSize := peakSize / 2;
      k := k - 1;
    }
    if position != U64 - 1 {
      OnesIsZero(k);
      HeightEnd(h, height);
    }
  }

  lemma NoOnes()
    ensures Ones(Len(0)) == 0
  {
  }

  /** Index::At and Index::GetNext. */
  method At(position: nat) returns (x: Index)
    requires position < U64
    ensures x.position == position
    ensures position != U64 - 1 ==> x == AtCoord(NodeAt(position))
    ensures x.Valid() <==> position != U64 - 1
  {
    var height := CalculateHeight(position);
    PosOfNodeAt(position);
    x := Index(position, height);
  }

  // ---------- Index::CalculateLeafIndex ----------

  /**
    The state of a greedy decomposition of the first n leaves into perfect trees, when a tree of 2^k - 1 nodes
    is tested next: `leaves` leaves are accounted for, and the others take up `numLeft` nodes.
   */
  ghost predicate GreedyState(n: nat, leaves: nat, numLeft: nat, k: nat) {
    leaves <= n && n - leaves < Pow2(k) && numLeft == LeafPos(n - leaves)
  }

  lemma GreedyStep(n: nat, leaves: nat, numLeft: nat, k: nat)
    requires k > 0 && GreedyState(n, leaves, numLeft, k)
    ensures (Ones(k) + 1) / 2 == Pow2(k - 1)
    ensures numLeft >= Ones(k) <==> n - leaves >= Pow2(k - 1)
    ensures if numLeft >= Ones(k) then GreedyState(n, leaves + Pow2(k - 1), numLeft - Ones(k), k - 1)
            else GreedyState(n, leaves, numLeft, k - 1)
  {
    var m := n - leaves;
    LeafPosPow2(k - 1);
    if m >= Pow2(k - 1) {
      LeafPosSplit(m - Pow2(k - 1), k - 1);
    } else {
      LeafPosMono(m, Pow2(k - 1));
    }
  }

  lemma GreedyStart(n: nat)
    ensures GreedyState(n, 0, LeafPos(n), Len(LeafPos(n)))
  {
    LenBounds(LeafPos(n));
  }

  lemma GreedyEnd(n: nat, leaves: nat, numLeft: nat)
    requires GreedyState(n, leaves, numLeft, 0)
    ensures leaves == n && numLeft == 0
  {
  }

  /** The state of the loop at the given position: at the last one no leaf is counted. */
  ghost predicate LeafIndexState(position: nat, leaves: nat, numLeft: nat, k: nat) {
    if position == U64 - 1 then leaves == 0 && (numLeft == 0 || numLeft == Ones(k) == position)
    else numLeft <= position && GreedyState(NodeAt(position).i, leaves, numLeft, k)
  }

  lemma LeafIndexStart(position: nat)
    requires position < U64 && NodeAt(position).h == 0
    ensures LeafIndexState(position, 0, position, Len(position))
  {
    hide NodeAt, LeafPos, NodePos;
    PosOfNodeAt(position);
    LeafNodePos(NodeAt(position).i);
    GreedyStart(NodeAt(position).i);
    if position == U64 - 1 { LastIsOnes(position); }
  }

  lemma LastIsOnes(position: nat)
    requires position == U64 - 1
    ensures Ones(Len(position)) == position
  {
    hide Len;
    Pow2Of64();
    LenBounds(position);
    LenLimit(position, 64);
    Pow2Mono(Len(position), 64);
  }

  lemma LeafIndexStep(position: nat, leaves: nat, numLeft: nat, k: nat)
    requires k > 0 && position < U64 && LeafIndexState(position, leaves, numLeft, k)
    ensures if numLeft >= Ones(k)
            then LeafIndexState(position, leaves + Word(Ones(k) + 1) / 2, numLeft - Ones(k), k - 1)
            else LeafIndexState(position, leaves, numLeft, k - 1)
  {
    hide NodeAt, Word, GreedyState, Ones;
    OnesIsZero(k);
    if numLeft >= Ones(k) { WordOf(Ones(k) + 1); }
    if position != U64 - 1 { GreedyStep(NodeAt(position).i, leaves, numLeft, k); }
  }

  lemma LeafIndexEnd(position: nat, leaves: nat, numLeft: nat)
    requires position < U64 && NodeAt(position).h == 0 && LeafIndexState(position, leaves, numLeft, 0)
    ensures leaves == if position == U64 - 1 then 0 else NodeAt(position).i
    ensures LeafPos(leaves) == position <==> position != U64 - 1
  {
    hide NodeAt, NodePos;
    if position != U64 - 1 {
      GreedyEnd(NodeAt(position).i, leaves, numLeft);
      PosOfNodeAt(position);
      LeafNodePos(leaves);
    }
  }

  /**
    The inverse of LeafPos: which leaf lies at a leaf position. At the last position the size of the first peak
    plus one wraps around to 0, so no leaf is counted.
   */
  method CalculateLeafIndex(position: nat) returns (leafIndex: nat)
    requires position < U64
    requires NodeAt(position).h == 0
    ensures leafIndex == if position == U64 - 1 then 0 else NodeAt(position).i
    ensures LeafPos(leafIndex) == position <==> position != U64 - 1
  {
    hide NodeAt, LeafPos, Len, Ones, LeafIndexState, Word;
    ghost var k := Len(position);
    LeafIndexStart(position);

    leafIndex := 0;
    var peakSize := FillOnesToRight(position);
    var numLeft := position;
    while peakSize != 0
      invariant peakSize == Ones(k) && LeafIndexState(position, leafIndex, numLeft, k)
      decreases peakSize
    {
      OnesIsZero(k);
      LeafIndexStep(position, leafIndex, numLeft, k);
      HalfOfOnes(k);
      if numLeft >= peakSize {
        leafIndex := leafIndex + Word(peakSize + 1) / 2;
        numLeft := numLeft - peakSize;
      }
      peakSize := peakSize / 2;
      k := k - 1;
    }
    OnesIsZero(k);
    LeafIndexEnd(position, leafIndex, numLeft);
  }

  /** Index::GetLeafIndex. */
  method GetLeafIndex(x: Index) returns (n: nat)
    requires x.Valid() && x.IsLeaf() && x.position < U64
    ensures n == if x.position == U64 - 1 then 0 else x.Coordinates().i
    ensures LeafPos(n) == x.position <==> x.position != U64 - 1
  {
    n := CalculateLeafIndex(x.position);
  }

  // ---------- Index::GetParent, Index::GetSibling ----------

  /** A node is a right child exactly when the next position holds a node one higher. */
  lemma NextIsHigher(p: nat)
    ensures NodeAt(p + 1).h == NodeAt(p).h + 1 <==> NodeAt(p).i % 2 == 1
  {
    assert NodeAt(p + 1) == Succ(NodeAt(p));
  }

  lemma ChildOfParent(c: Coord)
    ensures c == if c.i % 2 == 1 then RightChild(Parent(c)) else LeftChild(Parent(c))
    ensures Sibling(c) == if c.i % 2 == 1 then LeftChild(Parent(c)) else RightChild(Parent(c))
    ensures Parent(Sibling(c)) == Parent(c)
  {
  }

  lemma HeightFitsPosition(c: Coord)
    ensures 2 * Pow2(c.h) <= NodePos(c) + 2
  {
    TreeSpan(c);
    PopCountBound(c.i);
  }

  /** Where the parent and the sibling of a node lie, in terms of the node's position and height. */
  lemma FamilyPositions(c: Coord)
    ensures c.i % 2 == 0 ==> NodePos(Parent(c)) == NodePos(c) + Pow2(c.h + 1)
    ensures c.i % 2 == 0 ==> NodePos(Sibling(c)) == NodePos(c) + Pow2(c.h + 1) - 1
    ensures c.i % 2 == 1 ==> NodePos(Parent(c)) == NodePos(c) + 1
    ensures c.i % 2 == 1 ==> NodePos(Sibling(c)) + Pow2(c.h + 1) == NodePos(c) + 1
    ensures Pow2(c.h + 1) <= NodePos(c) + 2
  {
    HeightFitsPosition(c);
    ChildOfParent(c);
    ChildPositions(Parent(c));
  }

  /** The indices GetParent and GetSibling compute, for a right child and for a left child. */
  lemma FamilyOfRight(x: Index)
    requires x.Valid() && x.Coordinates().i % 2 == 1
    ensures Pow2(x.height + 1) <= x.position + 1
    ensures Index(x.position + 1, x.height + 1) == AtCoord(Parent(x.Coordinates()))
    ensures Index(x.position + 1 - Pow2(x.height + 1), x.height) == AtCoord(Sibling(x.Coordinates()))
  {
    hide PopCount, NodePos, NodeAt;
    PosOfNodeAt(x.position);
    FamilyPositions(x.Coordinates());
  }

  lemma FamilyOfLeft(x: Index)
    requires x.Valid() && x.Coordinates().i % 2 == 0
    ensures Pow2(x.height + 1) <= x.position + 2
    ensures Index(x.position + Pow2(x.height + 1), x.height + 1) == AtCoord(Parent(x.Coordinates()))
    ensures Index(x.position + Pow2(x.height + 1) - 1, x.height) == AtCoord(Sibling(x.Coordinates()))
  {
    hide PopCount, NodePos, NodeAt;
    PosOfNodeAt(x.position);
    FamilyPositions(x.Coordinates());
  }

  /** The next position, at which GetParent and GetSibling look, holds a node one higher exactly after a right child. */
  lemma NextHeight(x: Index, next: nat)
    requires x.Valid() && x.position < U64 && x.height < 63
    requires var p := Word(x.position + 1); next == if p == U64 - 1 then p else NodeAt(p).h
    ensures next == x.height + 1 <==> x.Coordinates().i % 2 == 1
    ensures x.Coordinates().i % 2 == 1 ==> x.position + 1 < U64
  {
    hide NodePos, NodeAt, Word;
    WordOf(x.position + 1);
    LastPositions(x.position);
    LastPositions(x.position + 1);
    FirstPosition();
    NextIsHigher(x.position);
    if x.position < U64 - 2 { assert Word(x.position + 1) == x.position + 1; }
  }

  lemma FirstPosition()
    ensures NodeAt(0).h == 0
  {
  }

  /** The parent, with its position in 64 bits: the parent itself unless that wraps around. */
  method GetParent(x: Index) returns (parent: Index)
    requires x.Valid() && x.position < U64 && x.height < 63
    ensures parent == Index(Word(NodePos(Parent(x.Coordinates()))), x.height + 1)
    ensures parent == AtCoord(Parent(x.Coordinates())) <==> NodePos(Parent(x.Coordinates())) < U64
    ensures NodePos(Parent(x.Coordinates())) < U64 ==> parent.Valid()
  {
    hide PopCount, NodePos, NodeAt, Shl, Parent, Sibling, Word;
    var next := CalculateHeight(Word(x.position + 1));
    NextHeight(x, next);
    if next == x.height + 1 {
      FamilyOfRight(x);
      parent := Index(Word(x.position + 1), x.height + 1);
    } else {
      FamilyOfLeft(x);
      parent := Index(Word(x.position + Pow2(x.height + 1)), x.height + 1);
    }
    AtCoordValid(Parent(x.Coordinates()));
  }

  /** The sibling, with its position in 64 bits. */
  method GetSibling(x: Index) returns (sibling: Index)
    requires x.Valid() && x.position < U64 && x.height < 63
    ensures sibling == Index(Word(NodePos(Sibling(x.Coordinates()))), x.height)
    ensures sibling == AtCoord(Sibling(x.Coordinates())) <==> NodePos(Sibling(x.Coordinates())) < U64
    ensures NodePos(Sibling(x.Coordinates())) < U64 ==> sibling.Valid()
  {
    hide PopCount, NodePos, NodeAt, Shl, Parent, Sibling, Word;
    var next := CalculateHeight(Word(x.position + 1));
    NextHeight(x, next);
    if next == x.height + 1 {
      FamilyOfRight(x);
      sibling := Index(Word(x.position + 1 - Pow2(x.height + 1)), x.height);
    } else {
      FamilyOfLeft(x);
      sibling := Index(Word(x.position + Pow2(x.height + 1) - 1), x.height);
    }
    AtCoordValid(Sibling(x.Coordinates()));
  }

  /** Positions below 2^62 have their parent and sibling, and those of the sibling, within 64 bits. */
  lemma FamilyFits(x: Index)
    requires x.Valid() && x.position < MAX_POSITION
    ensures x.height < 63
    ensures NodePos(Parent(x.Coordinates())) <= 2 * MAX_POSITION && NodePos(Sibling(x.Coordinates())) <= 2 * MAX_POSITION
  {
    var c := x.Coordinates();
    PosOfNodeAt(x.position);
    FamilyPositions(c);
    HalfWord(63);
    hide Pow2, NodePos;
    if c.h >= 63 { Pow2Mono(63, c.h + 1); }
  }

  /**
    A node's family, as the functions compute it: the sibling's sibling is the node, both have the same parent,
    and they are its two children.
   */
  method Family(x: Index) returns (parent: Index, sibling: Index)
    requires x.Valid() && x.position < U64 && x.height < 63 && NodePos(Parent(x.Coordinates())) < U64
    ensures parent.Valid() && sibling.Valid() && sibling != x && parent.height == x.height + 1
    ensures {x, sibling} == {parent.GetLeftChild(), parent.GetRightChild()}
  {
    hide PopCount, NodePos, NodeAt, Shl, Parent, Sibling, Word;
    var c := x.Coordinates();
    SiblingInvolution(c);
    PosOfNodeAt(x.position);
    AtCoordValid(Parent(c));
    AtCoordValid(Sibling(c));
    parent := GetParent(x);
    sibling := GetSibling(x);
    SameHeight(c);
    var again := GetParent(sibling);
    var back := GetSibling(sibling);
    assert again == parent && back == x;
    FamilyIndices(c);
  }

  lemma SameHeight(c: Coord)
    ensures Sibling(c).h == c.h && Parent(c).h == c.h + 1
  {
  }

  lemma FamilyIndices(c: Coord)
    ensures AtCoord(Sibling(c)) != AtCoord(c) && Parent(c).h > 0
    ensures {AtCoord(c), AtCoord(Sibling(c))} == {AtCoord(LeftChild(Parent(c))), AtCoord(RightChild(Parent(c)))}
  {
    hide *;
    SameHeight(c);
    AtCoordValid(c);
    AtCoordValid(Sibling(c));
    SiblingInvolution(c);
    ChildOfParent(c);
  }

  /** The sibling of the sibling is the node itself; both lie before their common parent and are its two children. */
  lemma SiblingInvolution(c: Coord)
    ensures Sibling(Sibling(c)) == c && Sibling(c) != c
    ensures Parent(Sibling(c)) == Parent(c)
    ensures {c, Sibling(c)} == {LeftChild(Parent(c)), RightChild(Parent(c))}
    ensures NodePos(Parent(c)) > NodePos(c) && NodePos(Parent(c)) > NodePos(Sibling(c))
  {
    ChildOfParent(c);
    ChildOfParent(Sibling(c));
    ChildPositions(Parent(c));
  }

  // ---------- LeafIndex ----------

  /** LeafIndex::At. The position is that of the leaf unless it wraps around, as it does for leaves above 2^63. */
  method LeafIndexAt(leafIndex: nat) returns (x: Index)
    requires leafIndex < U64
    ensures x == Index(Word(LeafPos(leafIndex)), 0)
    ensures x == AtCoord(Coord(leafIndex, 0)) <==> LeafPos(leafIndex) < U64
    ensures LeafPos(leafIndex) < U64 ==> x.Valid()
    ensures LeafPos(leafIndex) < U64 <==> leafIndex <= U64 / 2
  {
    var count := CountBitsSet(leafIndex);
    LeafNodePos(leafIndex);
    AtCoordValid(Coord(leafIndex, 0));
    LeafPosFits(leafIndex);
    assert LeafPos(leafIndex) == 2 * leafIndex - count;
    x := Index(Word(2 * leafIndex - count), 0);
  }

  lemma LeafPosFits(n: nat)
    ensures LeafPos(n) < U64 <==> n <= U64 / 2
  {
    hide *;
    HalfWord(63);
    LeafPosPow2(63);
    AroundLeaf(n, Pow2(63));
    WordSize();
  }

  lemma WordSize()
    ensures U64 == 2 * (U64 / 2)
  {
  }

  lemma AroundLeaf(n: nat, m: nat)
    ensures n <= m ==> LeafPos(n) <= LeafPos(m)
    ensures n > m ==> LeafPos(n) > LeafPos(m)
  {
    hide LeafPos;
    if n <= m { LeafPosMono(n, m); } else { LeafPosMono(m, n); }
  }
}
