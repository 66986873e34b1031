/**
  The hashes of a Merkle Mountain Range as a function of its leaf list, and what its root commits to.
  Hashes are symbolic: equal digests have equal preimages, and no digest is the all-zero hash.
 */
module Merkle {
  import opened Bits
  import opened Positions

  type Bytes = seq<Byte>

  datatype Hash =
    | Zero
    | LeafHash(position: nat, data: Bytes)
    | ParentHash(position: nat, left: Hash, right: Hash)
    | BytesHash(bytes: Bytes)

  // ---------- node hashes ----------

  lemma ChildrenInRange(c: Coord, n: nat)
    requires c.h > 0 && InRange(c, n)
    ensures InRange(LeftChild(c), n) && InRange(RightChild(c), n)
  {
    LeafSpan(c);
  }

  ghost function NodeHash(leaves: seq<Bytes>, c: Coord): (hash: Hash)
    requires InRange(c, |leaves|)
    ensures hash != Zero
    decreases c.h
  {
    if c.h == 0 then
      LeafHash(LeafPos(c.i), leaves[c.i])
    else
      ChildrenInRange(c, |leaves|);
      ParentHash(NodePos(c), NodeHash(leaves, LeftChild(c)), NodeHash(leaves, RightChild(c)))
  }

  /** The hash at a position of the range over the given leaves. */
  ghost function HashAt(leaves: seq<Bytes>, p: nat): Hash
    requires p < LeafPos(|leaves|)
  {
    PosOfNodeAt(p);
    InRangeIffBelow(NodeAt(p), |leaves|);
    NodeHash(leaves, NodeAt(p))
  }

  /** A node's hash depends only on the leaves up to its end. */
  lemma {:induction false} NodeHashPrefix(a: seq<Bytes>, b: seq<Bytes>, c: Coord)
    requires InRange(c, |a|) && InRange(c, |b|)
    requires a[..EndLeaf(c)] == b[..EndLeaf(c)]
    ensures NodeHash(a, c) == NodeHash(b, c)
    decreases c.h
  {
    if c.h == 0 {
      assert a[c.i] == a[..EndLeaf(c)][c.i] == b[c.i];
    } else {
      ChildrenInRange(c, |a|);
      LeafSpan(c);
      var e := EndLeaf(LeftChild(c));
      assert a[..e] == a[..EndLeaf(c)][..e] == b[..e];
      NodeHashPrefix(a, b, LeftChild(c));
      NodeHashPrefix(a, b, RightChild(c));
    }
  }

  /** Appending leaves, or dropping later ones, does not change the hash at any earlier position. */
  lemma HashAtPrefix(a: seq<Bytes>, b: seq<Bytes>, n: nat, p: nat)
    requires n <= |a| && n <= |b| && a[..n] == b[..n] && p < LeafPos(n)
    ensures p < LeafPos(|a|) && p < LeafPos(|b|)
    ensures HashAt(a, p) == HashAt(b, p)
  {
    var c := NodeAt(p);
    PosOfNodeAt(p);
    InRangeIffBelow(c, n);
    LeafPosMono(n, |a|);
    LeafPosMono(n, |b|);
    var e := EndLeaf(c);
    assert a[..e] == a[..n][..e] == b[..e];
    NodeHashPrefix(a, b, c);
  }

  lemma HashAtCoord(leaves: seq<Bytes>, c: Coord)
    requires InRange(c, |leaves|)
    ensures NodePos(c) < LeafPos(|leaves|) && HashAt(leaves, NodePos(c)) == NodeHash(leaves, c)
  {
    InRangeIffBelow(c, |leaves|);
    NodeAtPos(c);
  }

  // ---------- peaks ----------

  /**
    The peaks of the range of b * 2^k + m leaves among the nodes below Coord(b, k), from left to right:
    the perfect trees of the binary expansion of m.
   */
  ghost function PeaksBelow(b: nat, m: nat, k: nat): seq<Coord>
    requires m < Pow2(k)
    decreases k
  {
    if k == 0 then []
    else if m >= Pow2(k - 1) then [Coord(2 * b, k - 1)] + PeaksBelow(2 * b + 1, m - Pow2(k - 1), k - 1)
    else PeaksBelow(2 * b, m, k - 1)
  }

  ghost function Peaks(n: nat): seq<Coord> {
    LenBounds(n);
    PeaksBelow(0, n, Len(n))
  }

  lemma {:induction false} PeaksAtAnyLevel(n: nat, k: nat)
    requires n < Pow2(k)
    ensures PeaksBelow(0, n, k) == Peaks(n)
  {
    hide Shl;
    LenBounds(n);
    LenLimit(n, k);
    if k > Len(n) {
      Pow2Mono(Len(n), k - 1);
      PeaksAtAnyLevel(n, k - 1);
    }
  }

  /** c is below (or is) the node b of height k. */
  ghost predicate Below(c: Coord, b: nat, k: nat)
    decreases k
  {
    c == Coord(b, k) || (k > 0 && (Below(c, 2 * b, k - 1) || Below(c, 2 * b + 1, k - 1)))
  }

  /** The two halves of the tree Coord(b, k). */
  lemma Halves(b: nat, k: nat)
    requires k > 0
    ensures Pow2(k) == 2 * Pow2(k - 1)
    ensures LeftChild(Coord(b, k)) == Coord(2 * b, k - 1) && RightChild(Coord(b, k)) == Coord(2 * b + 1, k - 1)
    ensures StartLeaf(Coord(2 * b, k - 1)) == StartLeaf(Coord(b, k))
    ensures EndLeaf(Coord(2 * b, k - 1)) == StartLeaf(Coord(2 * b + 1, k - 1)) == StartLeaf(Coord(b, k)) + Pow2(k - 1)
    ensures EndLeaf(Coord(2 * b + 1, k - 1)) == EndLeaf(Coord(b, k)) == StartLeaf(Coord(b, k)) + Pow2(k)
    ensures EndLeaf(Coord(2 * b, k - 1)) < EndLeaf(Coord(b, k))
  {
    assert Pow2(k) == 2 * Pow2(k - 1);
    hide Shl;
    LeafSpan(Coord(b, k));
    TreeSpan(Coord(b, k));
  }

  lemma {:induction false} BelowBounds(c: Coord, b: nat, k: nat)
    requires Below(c, b, k)
    ensures c.h <= k
    ensures StartLeaf(Coord(b, k)) < EndLeaf(c) <= EndLeaf(Coord(b, k))
    decreases k
  {
    hide Shl;
    TreeSpan(Coord(b, k));
    if c != Coord(b, k) {
      Halves(b, k);
      if Below(c, 2 * b, k - 1) {
        BelowBounds(c, 2 * b, k - 1);
      } else {
        BelowBounds(c, 2 * b + 1, k - 1);
      }
    }
  }

  lemma {:induction false} ParentBelow(c: Coord, b: nat, k: nat)
    requires Below(c, b, k) && c != Coord(b, k)
    ensures Below(Parent(c), b, k)
    decreases k
  {
    var d := if Below(c, 2 * b, k - 1) then 2 * b else 2 * b + 1;
    if c != Coord(d, k - 1) {
      ParentBelow(c, d, k - 1);
    }
  }

  lemma {:induction false} BelowRoot(c: Coord, k: nat)
    requires InRange(c, Pow2(k))
    ensures Below(c, 0, k)
    decreases k - c.h
  {
    InPerfectTree(c.i, c.h, k);
    if c.h < k {
      InPerfectTree(c.i / 2, c.h + 1, k);
      BelowRoot(Parent(c), k);
      ChildBelow(Parent(c), c, 0, k);
    }
  }

  lemma {:induction false} ChildBelow(p: Coord, c: Coord, b: nat, k: nat)
    requires Below(p, b, k) && Parent(c) == p
    ensures Below(c, b, k)
    decreases k
  {
    if p == Coord(b, k) {
      assert Below(c, c.i, k - 1);
      assert c.i == 2 * b || c.i == 2 * b + 1;
    } else if Below(p, 2 * b, k - 1) {
      ChildBelow(p, c, 2 * b, k - 1);
    } else {
      ChildBelow(p, c, 2 * b + 1, k - 1);
    }
  }

  lemma {:induction false} PeaksAreBelow(c: Coord, b: nat, m: nat, k: nat)
    requires m < Pow2(k) && c in PeaksBelow(b, m, k)
    ensures Below(c, b, k) && c.h < k && InRange(c, StartLeaf(Coord(b, k)) + m)
    decreases k
  {
    Halves(b, k);
    if m >= Pow2(k - 1) {
      if c != Coord(2 * b, k - 1) {
        PeaksAreBelow(c, 2 * b + 1, m - Pow2(k - 1), k - 1);
      }
    } else {
      PeaksAreBelow(c, 2 * b, m, k - 1);
    }
  }

  /** Below a tree, the peaks are the nodes in range whose parent is not. */
  lemma {:induction false} PeakIffBelow(c: Coord, b: nat, m: nat, k: nat)
    requires m < Pow2(k) && Below(c, b, k)
    ensures c in PeaksBelow(b, m, k) <==>
              InRange(c, StartLeaf(Coord(b, k)) + m) && !InRange(Parent(c), StartLeaf(Coord(b, k)) + m)
    decreases k
  {
    hide Shl;
    TreeSpan(Coord(b, k));
    if c == Coord(b, k) {
      if c in PeaksBelow(b, m, k) { PeaksAreBelow(c, b, m, k); }
    } else {
      Halves(b, k);
        if Below(c, 2 * b, k - 1) {
        PeakInLeftHalf(c, b, m, k);
      } else {
        PeakInRightHalf(c, b, m, k);
      }
    }
  }

  lemma {:induction false} PeakInLeftHalf(c: Coord, b: nat, m: nat, k: nat)
    requires k > 0 && m < Pow2(k) && Below(c, 2 * b, k - 1)
    ensures c in PeaksBelow(b, m, k) <==>
              InRange(c, StartLeaf(Coord(b, k)) + m) && !InRange(Parent(c), StartLeaf(Coord(b, k)) + m)
    decreases k, 0
  {
    hide Shl;
    Halves(b, k);
    BelowBounds(c, 2 * b, k - 1);
    if m < Pow2(k - 1) {
      PeakIffBelow(c, 2 * b, m, k - 1);
    } else if c == Coord(2 * b, k - 1) {
      assert Parent(c) == Coord(b, k);
      assert c in PeaksBelow(b, m, k);
    } else {
      ParentBelow(c, 2 * b, k - 1);
      BelowBounds(Parent(c), 2 * b, k - 1);
      if c in PeaksBelow(2 * b + 1, m - Pow2(k - 1), k - 1) {
        PeaksAreBelow(c, 2 * b + 1, m - Pow2(k - 1), k - 1);
        BelowBounds(c, 2 * b + 1, k - 1);
      }
    }
  }

  lemma {:induction false} PeakInRightHalf(c: Coord, b: nat, m: nat, k: nat)
    requires k > 0 && m < Pow2(k) && Below(c, 2 * b + 1, k - 1)
    ensures c in PeaksBelow(b, m, k) <==>
              InRange(c, StartLeaf(Coord(b, k)) + m) && !InRange(Parent(c), StartLeaf(Coord(b, k)) + m)
    decreases k, 0
  {
    hide Shl;
    Halves(b, k);
    BelowBounds(c, 2 * b + 1, k - 1);
    if m >= Pow2(k - 1) {
      PeakIffBelow(c, 2 * b + 1, m - Pow2(k - 1), k - 1);
    } else if c in PeaksBelow(2 * b, m, k - 1) {
      PeaksAreBelow(c, 2 * b, m, k - 1);
      assert false;
    }
  }

  /** The peaks are exactly the nodes that have no parent in the range. */
  lemma PeakIff(c: Coord, n: nat)
    ensures c in Peaks(n) <==> InRange(c, n) && !InRange(Parent(c), n)
  {
    var k := Len(n);
    LenBounds(n);
    StartOfFirst(k);
    if InRange(c, n) {
      BelowRoot(c, k);
      PeakIffBelow(c, 0, n, k);
    } else if c in Peaks(n) {
      PeaksAreBelow(c, 0, n, k);
    }
  }

  // ---------- the root ----------

  /** Bagging: fold the peak hashes from the right, with the size of the range as the position. */
  ghost function Bag(peaks: seq<Hash>, size: nat): Hash {
    if peaks == [] then Zero
    else
      var rest := Bag(peaks[1..], size);
      if rest == Zero then peaks[0] else ParentHash(size, peaks[0], rest)
  }

  /** The bagged hashes, from the last peak on: each peak on the left of what has been bagged, at the position after the range. */
  lemma {:induction false} Bagged(peaks: seq<Hash>, size: nat) returns (bagged: seq<Hash>)
    requires peaks != [] && NonZero(peaks)
    ensures |bagged| == |peaks| && bagged[0] == Bag(peaks, size)
    ensures bagged[|peaks| - 1] == peaks[|peaks| - 1]
    ensures forall i :: 0 <= i < |peaks| - 1 ==> bagged[i] == ParentHash(size, peaks[i], bagged[i + 1])
  {
    if |peaks| == 1 {
      bagged := peaks;
      assert Bag(peaks[1..], size) == Zero;
    } else {
      var rest := Bagged(peaks[1..], size);
      BagNonZero(peaks[1..], size);
      bagged := [Bag(peaks, size)] + rest;
    }
  }

  /** The roots of one, two and three leaves. */
  lemma SmallRoots(a: Bytes, b: Bytes, c: Bytes)
    ensures MmrRoot([a]) == LeafHash(0, a)
    ensures MmrRoot([a, b]) == ParentHash(2, LeafHash(0, a), LeafHash(1, b))
    ensures MmrRoot([a, b, c]) == ParentHash(4, ParentHash(2, LeafHash(0, a), LeafHash(1, b)), LeafHash(3, c))
  {
    hide *;
    SmallPositions();
    SmallPeaks();
    RootOfPeaks([a], [Coord(0, 0)]);
    RootOfPeaks([a, b], [Coord(0, 1)]);
    RootOfPeaks([a, b, c], [Coord(0, 1), Coord(2, 0)]);
    LeafIs([a], 0);
    PairIs([a, b], a, b);
    PairIs([a, b, c], a, b);
    LeafIs([a, b, c], 2);
  }

  lemma SmallPositions()
    ensures LeafPos(0) == 0 && LeafPos(1) == 1 && LeafPos(2) == 3 && LeafPos(3) == 4
    ensures NodePos(Coord(0, 1)) == 2 && EndLeaf(Coord(0, 1)) == 2 && EndLeaf(Coord(0, 0)) == 1 && EndLeaf(Coord(2, 0)) == 3
  {
    hide NodePos, LeafPos;
    LeafPosStep(0);
    LeafPosStep(1);
    LeafPosStep(2);
    ChildPositions(Coord(0, 1));
    LeafNodePos(1);
  }

  lemma SmallPeaks()
    ensures Peaks(1) == [Coord(0, 0)] && Peaks(2) == [Coord(0, 1)] && Peaks(3) == [Coord(0, 1), Coord(2, 0)]
  {
    assert Pow2(0) == 1 && Pow2(1) == 2 && Pow2(2) == 4;
    PeaksAtAnyLevel(1, 1);
    PeaksAtAnyLevel(2, 2);
    PeaksAtAnyLevel(3, 2);
  }

  lemma RootOfPeaks(leaves: seq<Bytes>, peaks: seq<Coord>)
    requires Peaks(|leaves|) == peaks && 0 < |peaks| <= 2
    ensures forall c :: c in peaks ==> InRange(c, |leaves|)
    ensures MmrRoot(leaves) == if |peaks| == 1 then NodeHash(leaves, peaks[0])
              else ParentHash(LeafPos(|leaves|), NodeHash(leaves, peaks[0]), NodeHash(leaves, peaks[1]))
  {
    hide NodeHash, Peaks, LeafPos, InRange, Bag;
    PeaksInRange(|leaves|);
    var bagged := Bagged(PeakHashes(leaves), LeafPos(|leaves|));
  }

  lemma LeafIs(leaves: seq<Bytes>, i: nat)
    requires i < |leaves|
    ensures InRange(Coord(i, 0), |leaves|) && NodeHash(leaves, Coord(i, 0)) == LeafHash(LeafPos(i), leaves[i])
  {
    assert EndLeaf(Coord(i, 0)) == i + 1;
  }

  lemma PairIs(leaves: seq<Bytes>, a: Bytes, b: Bytes)
    requires |leaves| >= 2 && leaves[0] == a && leaves[1] == b
    ensures InRange(Coord(0, 1), |leaves|) && NodeHash(leaves, Coord(0, 1)) == ParentHash(2, LeafHash(0, a), LeafHash(1, b))
  {
    hide LeafPos, NodePos;
    SmallPositions();
    LeafIs(leaves, 0);
    LeafIs(leaves, 1);
  }

  ghost function HashesOf(leaves: seq<Bytes>, coords: seq<Coord>): (hashes: seq<Hash>)
    requires forall c :: c in coords ==> InRange(c, |leaves|)
    ensures |hashes| == |coords|
    ensures forall j :: 0 <= j < |hashes| ==> hashes[j] == NodeHash(leaves, coords[j])
  {
    seq(|coords|, j requires 0 <= j < |coords| => NodeHash(leaves, coords[j]))
  }

  lemma PeaksInRange(n: nat)
    ensures forall c :: c in Peaks(n) ==> InRange(c, n)
  {
    forall c | c in Peaks(n) ensures InRange(c, n) { PeakIff(c, n); }
  }

  ghost function PeakHashes(leaves: seq<Bytes>): (hashes: seq<Hash>)
    ensures |hashes| == |Peaks(|leaves|)|
  {
    PeaksInRange(|leaves|);
    HashesOf(leaves, Peaks(|leaves|))
  }

  ghost function MmrRoot(leaves: seq<Bytes>): Hash {
    Bag(PeakHashes(leaves), LeafPos(|leaves|))
  }

  // ---------- binding ----------

  ghost predicate NonZero(hashes: seq<Hash>) {
    forall j :: 0 <= j < |hashes| ==> hashes[j] != Zero
  }

  lemma BagNonZero(peaks: seq<Hash>, size: nat)
    requires peaks != [] && NonZero(peaks)
    ensures Bag(peaks, size) != Zero
  {
  }

  lemma {:induction false} BagInjective(p: seq<Hash>, q: seq<Hash>, size: nat)
    requires |p| == |q| && Bag(p, size) == Bag(q, size)
    requires NonZero(p) && NonZero(q)
    ensures p == q
  {
    if |p| > 1 {
      BagNonZero(p[1..], size);
      BagNonZero(q[1..], size);
      BagInjective(p[1..], q[1..], size);
      assert p == [p[0]] + p[1..] && q == [q[0]] + q[1..];
    } else if |p| == 1 {
      assert p[1..] == [] && q[1..] == [];
    }
  }

  lemma {:induction false} NodeHashBinding(a: seq<Bytes>, b: seq<Bytes>, c: Coord, l: nat)
    requires InRange(c, |a|) && InRange(c, |b|) && NodeHash(a, c) == NodeHash(b, c)
    requires StartLeaf(c) <= l < EndLeaf(c)
    ensures a[l] == b[l]
    decreases c.h
  {
    if c.h > 0 {
      ChildrenInRange(c, |a|);
      ChildrenInRange(c, |b|);
      LeafSpan(c);
      NodeHashBinding(a, b, if l < EndLeaf(LeftChild(c)) then LeftChild(c) else RightChild(c), l);
    }
  }

  /** The peaks below a tree cover all its leaves in range. */
  lemma {:induction false} PeaksCover(b: nat, m: nat, k: nat, l: nat) returns (c: Coord)
    requires m < Pow2(k) && StartLeaf(Coord(b, k)) <= l < StartLeaf(Coord(b, k)) + m
    ensures c in PeaksBelow(b, m, k) && StartLeaf(c) <= l < EndLeaf(c)
    decreases k
  {
    Halves(b, k);
    if m < Pow2(k - 1) {
      c := PeaksCover(2 * b, m, k - 1, l);
    } else if l < EndLeaf(Coord(2 * b, k - 1)) {
      c := Coord(2 * b, k - 1);
    } else {
      c := PeaksCover(2 * b + 1, m - Pow2(k - 1), k - 1, l);
    }
  }

  /** Ranges of the same size with the same root have the same leaves. */
  lemma SameCountBinding(a: seq<Bytes>, b: seq<Bytes>)
    requires |a| == |b| && MmrRoot(a) == MmrRoot(b)
    ensures a == b
  {
    var n := |a|;
    var peaks := Peaks(n);
    PeaksInRange(n);
    BagInjective(HashesOf(a, peaks), HashesOf(b, peaks), LeafPos(n));
    forall l | 0 <= l < n ensures a[l] == b[l] {
      LeafBinding(a, b, l);
    }
  }

  lemma LeafBinding(a: seq<Bytes>, b: seq<Bytes>, l: nat)
    requires l < |a| == |b|
    requires forall c :: c in Peaks(|a|) ==> InRange(c, |a|)
    requires HashesOf(a, Peaks(|a|)) == HashesOf(b, Peaks(|a|))
    ensures a[l] == b[l]
  {
    var peaks := Peaks(|a|);
    LenBounds(|a|);
    StartOfFirst(Len(|a|));
    var c := PeaksCover(0, |a|, Len(|a|), l);
    var j :| 0 <= j < |peaks| && peaks[j] == c;
    assert HashesOf(a, peaks)[j] == HashesOf(b, peaks)[j];
    NodeHashBinding(a, b, c, l);
  }

  // ---------- the root determines the number of leaves ----------

  lemma {:induction false} NoPeaks(b: nat, m: nat, k: nat)
    requires m < Pow2(k)
    ensures PeaksBelow(b, m, k) == [] <==> m == 0
    decreases k
  {
    if k > 0 {
      Halves(b, k);
      if m < Pow2(k - 1) { NoPeaks(2 * b, m, k - 1); }
    }
  }

  /** A single peak is a perfect tree that starts where the search starts. */
  lemma {:induction false} OnePeak(b: nat, m: nat, k: nat)
    requires m < Pow2(k) && |PeaksBelow(b, m, k)| == 1
    ensures var c := PeaksBelow(b, m, k)[0]; m == Pow2(c.h) && StartLeaf(c) == StartLeaf(Coord(b, k))
    decreases k
  {
    Halves(b, k);
    if m < Pow2(k - 1) {
      OnePeak(2 * b, m, k - 1);
    } else {
      NoPeaks(2 * b + 1, m - Pow2(k - 1), k - 1);
    }
  }

  lemma FirstOfHeight(c: Coord)
    requires StartLeaf(c) == 0
    ensures c.i == 0
  {
  }

  /** The node a root of n > 0 leaves is the hash of, or would be: the only peak, or the next leaf. */
  ghost function RootCoord(n: nat): Coord {
    if |Peaks(n)| == 1 then Peaks(n)[0] else Coord(n, 0)
  }

  lemma RootCoordOfPeak(n: nat)
    requires |Peaks(n)| == 1
    ensures Peaks(n)[0].i == 0 && n == Pow2(Peaks(n)[0].h)
  {
    LenBounds(n);
    OnePeak(0, n, Len(n));
    StartOfFirst(Len(n));
    FirstOfHeight(Peaks(n)[0]);
  }

  lemma RootCoordInjective(n: nat, m: nat)
    requires n > 0 && m > 0 && RootCoord(n) == RootCoord(m)
    ensures n == m
  {
    if |Peaks(n)| == 1 { RootCoordOfPeak(n); }
    if |Peaks(m)| == 1 { RootCoordOfPeak(m); }
  }

  ghost function PositionOf(hash: Hash): int {
    match hash
    case LeafHash(p, _) => p
    case ParentHash(p, _, _) => p
    case _ => -1
  }

  lemma RootAtCoord(leaves: seq<Bytes>)
    requires leaves != []
    ensures MmrRoot(leaves) != Zero && PositionOf(MmrRoot(leaves)) == NodePos(RootCoord(|leaves|))
  {
    hide PopCount, LeafPos, NodePos, EndLeaf;
    var n := |leaves|;
    LenBounds(n);
    NoPeaks(0, n, Len(n));
    PeaksInRange(n);
    var hashes := PeakHashes(leaves);
    BagNonZero(hashes, LeafPos(n));
    LeafNodePos(n);
    if |hashes| == 1 {
      assert hashes[1..] == [];
      NodeHashPosition(leaves, Peaks(n)[0]);
    } else {
      BagNonZero(hashes[1..], LeafPos(n));
    }
  }

  lemma NodeHashPosition(leaves: seq<Bytes>, c: Coord)
    requires InRange(c, |leaves|)
    ensures PositionOf(NodeHash(leaves, c)) == NodePos(c)
  {
    if c.h == 0 { LeafNodePos(c.i); }
  }

  /** The root commits to the whole leaf list, and to its length. */
  lemma RootBinding(a: seq<Bytes>, b: seq<Bytes>)
    requires MmrRoot(a) == MmrRoot(b)
    ensures a == b
  {
    hide PopCount, LeafPos, NodePos, EndLeaf, RootCoord, MmrRoot;
    EmptyRoot();
    if a != [] { RootAtCoord(a); }
    if b != [] { RootAtCoord(b); }
    if a != [] && b != [] {
      NodePosInjective(RootCoord(|a|), RootCoord(|b|));
      RootCoordInjective(|a|, |b|);
      SameCountBinding(a, b);
    }
  }

  lemma EmptyRoot()
    ensures MmrRoot([]) == Zero
  {
  }
}
