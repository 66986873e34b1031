/**
  Where the nodes of a Merkle Mountain Range lie. The nodes are numbered in post-order over the infinite
  range of perfect trees; the node that covers the leaves [i * 2^h, (i + 1) * 2^h) has coordinates (i, h).
 */
module Positions {
  import opened Bits

  /** The i-th node, from the left, of height h. */
  datatype Coord = Coord(i: nat, h: nat)

  /** The post-order position of the n-th leaf, which is also the number of nodes of a range of n leaves. */
  function LeafPos(n: nat): (p: nat)
    ensures n <= p <= 2 * n
  {
    PopCountBound(n);
    2 * n - PopCount(n)
  }

  /** The first leaf to the right of the node. */
  function EndLeaf(c: Coord): (n: nat)
    ensures n > c.i
  {
    Shl(c.i + 1, c.h)
  }

  /** The first leaf below the node. */
  function StartLeaf(c: Coord): (n: nat)
    ensures n >= c.i
  {
    Shl(c.i, c.h)
  }

  /** The post-order position of a node. */
  function NodePos(c: Coord): nat {
    PopCountBound(c.i);
    2 * EndLeaf(c) - PopCount(c.i) - 2
  }

  /** The node is part of the range of n leaves. */
  predicate InRange(c: Coord, n: nat) {
    EndLeaf(c) <= n
  }

  function Parent(c: Coord): Coord { Coord(c.i / 2, c.h + 1) }

  function Sibling(c: Coord): Coord { Coord(if c.i % 2 == 0 then c.i + 1 else c.i - 1, c.h) }

  function LeftChild(c: Coord): Coord
    requires c.h > 0
  {
    Coord(2 * c.i, c.h - 1)
  }

  function RightChild(c: Coord): Coord
    requires c.h > 0
  {
    Coord(2 * c.i + 1, c.h - 1)
  }

  /** The node after c in post-order: its parent if c is a right child, else the next leaf. */
  function Succ(c: Coord): Coord {
    if c.i % 2 == 1 then Parent(c) else Coord(EndLeaf(c), 0)
  }

  /** The node at a position, found by walking the range from its start. */
  function NodeAt(p: nat): Coord {
    if p == 0 then Coord(0, 0) else Succ(NodeAt(p - 1))
  }

  /** The first seven nodes. */
  lemma FirstNodes()
    ensures NodeAt(0) == Coord(0, 0) && NodeAt(1) == Coord(1, 0) && NodeAt(2) == Coord(0, 1) && NodeAt(3) == Coord(2, 0)
    ensures NodeAt(4) == Coord(3, 0) && NodeAt(5) == Coord(1, 1) && NodeAt(6) == Coord(0, 2)
  {
  }

  // ---------- leaves below a node ----------

  lemma TreeSpan(c: Coord)
    ensures StartLeaf(c) + Pow2(c.h) == EndLeaf(c)
  {
    ShlAdd(c.i, 1, c.h);
  }

  /** A node ends with its right child; the left child ends where the right child starts. */
  lemma LeafSpan(c: Coord)
    requires c.h > 0
    ensures EndLeaf(RightChild(c)) == EndLeaf(c) && StartLeaf(LeftChild(c)) == StartLeaf(c)
    ensures StartLeaf(RightChild(c)) == EndLeaf(LeftChild(c)) == StartLeaf(c) + Pow2(c.h - 1)
    ensures EndLeaf(LeftChild(c)) + Pow2(c.h - 1) == EndLeaf(c)
  {
    hide Shl;
    TreeSpan(LeftChild(c));
    TreeSpan(RightChild(c));
    ShlTwice(c.i + 1, c.h - 1);
    ShlTwice(c.i, c.h - 1);
  }

  lemma {:induction false} StartOfFirst(k: nat)
    ensures StartLeaf(Coord(0, k)) == 0
  {
    if k > 0 { StartOfFirst(k - 1); }
  }

  /** The nodes of the perfect tree of height k. */
  lemma InPerfectTree(i: nat, h: nat, k: nat)
    ensures InRange(Coord(i, h), Pow2(k)) <==> h <= k && i < Pow2(k - h)
  {
    if h <= k {
      ShlShl(1, k - h, h);
      ShlMono(i + 1, Pow2(k - h), h);
    } else {
      Pow2Mono(k + 1, h);
      ShlMono(1, i + 1, h);
    }
  }

  lemma PopCountEndLeaf(c: Coord)
    ensures PopCount(EndLeaf(c)) == PopCount(c.i + 1)
    ensures PopCount(EndLeaf(c) - 1) == PopCount(c.i) + c.h
  {
    PopCountShl(c.i + 1, c.h);
    PopCountFilled(c.i, c.h);
  }

  // ---------- positions enumerate the nodes ----------

  lemma LeafNodePos(n: nat)
    ensures NodePos(Coord(n, 0)) == LeafPos(n)
  {
    assert EndLeaf(Coord(n, 0)) == n + 1;
  }

  lemma NodePosSucc(c: Coord)
    ensures NodePos(Succ(c)) == NodePos(c) + 1
  {
    hide Shl, PopCount;
    if c.i % 2 == 1 {
      LeafSpan(Parent(c));
      PopCountDouble(c.i / 2);
    } else {
      PopCountEndLeaf(c);
      PopCountDouble(c.i / 2);
      LeafNodePos(EndLeaf(c));
    }
  }

  lemma {:induction false} PosOfNodeAt(p: nat)
    ensures NodePos(NodeAt(p)) == p
  {
    hide Succ, PopCount, EndLeaf;
    if p > 0 {
      PosOfNodeAt(p - 1);
      NodePosSucc(NodeAt(p - 1));
    } else {
      LeafNodePos(0);
    }
  }

  /** Some left child or peak ends just before any leaf but the first. */
  lemma {:induction false} EndsBefore(n: nat) returns (b: Coord)
    requires n > 0
    ensures b.i % 2 == 0 && EndLeaf(b) == n
  {
    if n % 2 == 1 {
      b := Coord(n - 1, 0);
    } else {
      b := EndsBefore(n / 2);
      b := Coord(b.i, b.h + 1);
    }
  }

  /** Every node has a predecessor in post-order, except the first leaf. */
  lemma Predecessor(c: Coord) returns (b: Coord)
    requires c != Coord(0, 0)
    ensures Succ(b) == c
  {
    if c.h > 0 {
      b := RightChild(c);
    } else {
      b := EndsBefore(c.i);
    }
  }

  lemma {:induction false} NodeAtPos(c: Coord)
    ensures NodeAt(NodePos(c)) == c
    decreases NodePos(c)
  {
    if c == Coord(0, 0) {
    } else {
      var b := Predecessor(c);
      NodePosSucc(b);
      NodeAtPos(b);
    }
  }

  /** Positions name nodes uniquely. */
  lemma NodePosInjective(a: Coord, b: Coord)
    requires NodePos(a) == NodePos(b)
    ensures a == b
  {
    NodeAtPos(a);
    NodeAtPos(b);
  }

  // ---------- leaf positions ----------

  lemma LeafPosStep(n: nat)
    ensures LeafPos(n + 1) == LeafPos(n) + 1 + TrailingZeros(n + 1)
  {
    PopCountNext(n);
  }

  lemma {:induction false} LeafPosMono(a: nat, b: nat)
    requires a <= b
    ensures LeafPos(a) + (b - a) <= LeafPos(b)
  {
    if a < b {
      LeafPosMono(a, b - 1);
      LeafPosStep(b - 1);
    }
  }

  lemma LeafPosPow2(k: nat)
    ensures LeafPos(Pow2(k)) == 2 * Pow2(k) - 1
  {
    PopCountShl(1, k);
    assert PopCount(1) == 1;
  }

  /** A range of n leaves has exactly the nodes at the positions below LeafPos(n). */
  lemma InRangeIffBelow(c: Coord, n: nat)
    ensures InRange(c, n) <==> NodePos(c) < LeafPos(n)
  {
    hide Shl, PopCount;
    var e := EndLeaf(c);
    PopCountEndLeaf(c);
    PopCountNext(c.i);
    assert NodePos(c) < LeafPos(e);
    assert LeafPos(e - 1) == 2 * (e - 1) - PopCount(e - 1) <= NodePos(c);
    if e <= n {
      LeafPosMono(e, n);
    } else {
      LeafPosMono(n, e - 1);
    }
  }

  /** A range of n leaves, 2^k <= n < 2^(k + 1), is a perfect tree of height k and a range of n - 2^k leaves. */
  lemma LeafPosSplit(m: nat, k: nat)
    requires m < Pow2(k)
    ensures LeafPos(m + Pow2(k)) == LeafPos(m) + LeafPos(Pow2(k))
  {
    PopCountHighBit(m, k);
    LeafPosPow2(k);
  }

  /** Moving a node left past a perfect tree of 2^k leaves moves its position by the size of that tree. */
  lemma NodePosSplit(i: nat, h: nat, k: nat)
    requires h <= k && i < Pow2(k - h)
    ensures EndLeaf(Coord(i + Pow2(k - h), h)) == EndLeaf(Coord(i, h)) + Pow2(k)
    ensures NodePos(Coord(i + Pow2(k - h), h)) == NodePos(Coord(i, h)) + 2 * Pow2(k) - 1
  {
    hide PopCount;
    ShlAdd(i + 1, Pow2(k - h), h);
    ShlShl(1, k - h, h);
    PopCountHighBit(i, k - h);
  }

  lemma ParentOfChildren(c: Coord)
    requires c.h > 0
    ensures Parent(LeftChild(c)) == c && Parent(RightChild(c)) == c
    ensures Sibling(LeftChild(c)) == RightChild(c) && Sibling(RightChild(c)) == LeftChild(c)
  {
  }

  /** The children of a node come before it: the right child just before, the left one 2^h before. */
  lemma ChildPositions(c: Coord)
    requires c.h > 0
    ensures NodePos(RightChild(c)) == NodePos(c) - 1
    ensures NodePos(LeftChild(c)) == NodePos(c) - Pow2(c.h) < NodePos(RightChild(c))
    ensures EndLeaf(RightChild(c)) == EndLeaf(c)
  {
    hide PopCount;
    LeafSpan(c);
    PopCountDouble(c.i);
  }
}
