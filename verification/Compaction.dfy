/** Compacting a hash file again: MMRUtil::DiffCompactBitSet and FileBackend::Compact. */
module Compaction {
  import opened Bits
  import opened BitSets
  import opened Positions
  import opened Merkle
  import opened Backend
  import opened Factory
  import opened Wrappers

  /**
    Read through the given compacted positions, the file holds the given hashes: each one that is not compacted
    lies at its position less the number of compacted positions before it.
   */
  ghost predicate Reads(file: seq<Hash>, compact: BitSet, all: seq<Hash>) {
    && |file| + RankOf(compact, |all|) == |all|
    && forall p: nat :: p < |all| && !Test(compact, p) ==>
         p - RankOf(compact, p) < |file| && file[p - RankOf(compact, p)] == all[p]
  }

  // ---------- places in a compacted file ----------

  lemma {:induction false} PlaceMono(bits: BitSet, p: nat, q: nat)
    requires p <= q
    ensures p - RankOf(bits, p) <= q - RankOf(bits, q)
    ensures p < q && !Test(bits, p) ==> p - RankOf(bits, p) < q - RankOf(bits, q)
  {
    hide RankOf;
    if p < q {
      PlaceMono(bits, p, q - 1);
      RankStep(bits, q - 1);
    }
  }

  /** Every place of a compacted file is that of one position. */
  lemma {:induction false} AtPlace(bits: BitSet, n: nat, place: nat) returns (p: nat)
    requires place < n - RankOf(bits, n)
    ensures p < n && !Test(bits, p) && p - RankOf(bits, p) == place
  {
    hide RankOf;
    RankStep(bits, n - 1);
    if place < n - 1 - RankOf(bits, n - 1) {
      p := AtPlace(bits, n - 1, place);
    } else {
      p := n - 1;
    }
  }

  // ---------- MMRUtil::DiffCompactBitSet ----------

  /** What was compacted before is compacted again. */
  ghost predicate Covers(prev: BitSet, next: BitSet) {
    forall p: nat :: p < |next| && Test(prev, p) ==> next[p]
  }

  /** The bits of next without those of the positions already compacted. */
  ghost predicate IsDiff(diff: BitSet, prev: BitSet, next: BitSet) {
    && |diff| + RankOf(prev, |next|) == |next|
    && forall p: nat :: p < |next| && !Test(prev, p) ==>
         p - RankOf(prev, p) < |diff| && diff[p - RankOf(prev, p)] == next[p]
  }

  method DiffCompactBitSet(prev: BitSet, next: BitSet) returns (diff: BitSet)
    requires Covers(prev, next)
    ensures IsDiff(diff, prev, next)
  {
    hide RankOf;
    diff := [];
    var i := 0;
    RankStep(prev, 0);
    while i < |next|
      invariant 0 <= i <= |next| && |diff| + RankOf(prev, i) == i
      invariant forall p: nat :: p < i && !Test(prev, p) ==>
                  p - RankOf(prev, p) < |diff| && diff[p - RankOf(prev, p)] == next[p]
    {
      RankStep(prev, i);
      if !(|prev| > i && prev[i]) {
        diff := diff + [next[i]];
      }
      i := i + 1;
    }
  }

  /** Shifting by the compacted positions and then by the difference is shifting by the new ones. */
  lemma {:induction false} ShiftsAdd(prev: BitSet, next: BitSet, diff: BitSet, p: nat)
    requires Covers(prev, next) && IsDiff(diff, prev, next) && p <= |next|
    ensures RankOf(diff, p - RankOf(prev, p)) + RankOf(prev, p) == RankOf(next, p)
  {
    hide RankOf;
    RankStep(prev, 0);
    RankStep(next, 0);
    RankStep(diff, 0);
    if p > 0 {
      ShiftsAdd(prev, next, diff, p - 1);
      RankStep(prev, p - 1);
      RankStep(next, p - 1);
      RankStep(diff, p - 1 - RankOf(prev, p - 1));
    }
  }

  // ---------- FileBackend::Compact ----------

  /** The hashes of the file at the positions that are not removed, in order. */
  ghost predicate IsCompacted(kept: seq<Hash>, file: seq<Hash>, remove: BitSet) {
    && |kept| + RankOf(remove, |remove|) == |remove|
    && forall p: nat :: p < |remove| && !remove[p] ==>
         p < |file| && p - RankOf(remove, p) < |kept| && kept[p - RankOf(remove, p)] == file[p]
  }

  /** None where the read past the end of the file throws. */
  method Compact(file: seq<Hash>, remove: BitSet) returns (result: Option<seq<Hash>>)
    ensures result.Some? <==> forall p: nat :: |file| <= p < |remove| ==> remove[p]
    ensures result.Some? ==> IsCompacted(result.value, file, remove)
  {
    hide RankOf;
    var kept := [];
    var pos := 0;
    RankStep(remove, 0);
    while pos < |remove|
      invariant 0 <= pos <= |remove| && |kept| + RankOf(remove, pos) == pos
      invariant forall p: nat :: p < pos && !remove[p] ==>
                  p < |file| && p - RankOf(remove, p) < |kept| && kept[p - RankOf(remove, p)] == file[p]
    {
      RankStep(remove, pos);
      if !remove[pos] {
        if pos >= |file| {
          return None;
        }
        kept := kept + [file[pos]];
      }
      pos := pos + 1;
    }
    result := Some(kept);
  }

  // ---------- compacting again ----------

  /**
    Compacting a file by the difference to what is already compacted works exactly when the new bits leave no
    position past the last hash. The new file, read through the new bits, holds the same hashes, as far as there
    are bits for them.
   */
  lemma CompactAgainIff(all: seq<Hash>, file: seq<Hash>, prev: BitSet, next: BitSet, diff: BitSet)
    requires Reads(file, prev, all) && Covers(prev, next) && IsDiff(diff, prev, next)
    ensures (forall q: nat :: |file| <= q < |diff| ==> diff[q]) <==> (forall p: nat :: |all| <= p < |next| ==> next[p])
  {
    hide RankOf;
    forall q: nat | |file| <= q < |diff| && !diff[q] ensures exists p: nat :: |all| <= p < |next| && !next[p] {
      var p := AtPlace(prev, |next|, q);
      assert diff[p - RankOf(prev, p)] == next[p];
    }
    forall p: nat | |all| <= p < |next| && !next[p] ensures exists q: nat :: |file| <= q < |diff| && !diff[q] {
      PlaceMono(prev, |all|, p);
      assert !diff[p - RankOf(prev, p)];
    }
  }

  lemma CompactAgain(all: seq<Hash>, file: seq<Hash>, prev: BitSet, next: BitSet, diff: BitSet, kept: seq<Hash>)
    requires Reads(file, prev, all) && Covers(prev, next) && IsDiff(diff, prev, next)
    requires IsCompacted(kept, file, diff)
    ensures Reads(kept, next, if |next| < |all| then all[..|next|] else all)
  {
    hide RankOf;
    var held := if |next| < |all| then all[..|next|] else all;
    ShiftsAdd(prev, next, diff, |next|);
    forall p: nat | p < |next| && !next[p]
      ensures p < |all| && p - RankOf(next, p) < |kept| && kept[p - RankOf(next, p)] == all[p]
    {
      ShiftsAdd(prev, next, diff, p);
      if p >= |all| { PlaceMono(prev, |all|, p); }
      assert !diff[p - RankOf(prev, p)];
    }
    if |all| < |next| { OnlySet(next, |all|, |next|); }
  }

  lemma {:induction false} OnlySet(bits: BitSet, p: nat, q: nat)
    requires p <= q <= |bits| && forall j :: p <= j < q ==> bits[j]
    ensures RankOf(bits, q) == RankOf(bits, p) + (q - p)
  {
    hide RankOf;
    if p < q {
      OnlySet(bits, p, q - 1);
      RankStep(bits, q - 1);
    }
  }

  // ---------- with the bits of BuildCompactBitSet ----------

  /** The hashes CalcHashes rebuilds are a file compacted by the bits of BuildCompactBitSet. */
  lemma RebuiltIsRead(ret: seq<Hash>, unspent: BitSet, data: seq<Bytes>, compact: BitSet, all: seq<Hash>)
    requires |unspent| == |data| && Rebuilt(ret, unspent, data, 2 * |data|) && IsCompact(compact, unspent, |data|)
    requires |all| == LeafPos(|data|) && HashesMatch(all, 0, data)
    ensures Reads(ret, compact, all)
  {
    hide LeafPos, NodePos, NodeAt, Kept, KeptBits, HashAt, Rebuilt, IsCompact, Peaks, RankOf;
    RebuiltReads(ret, unspent, data, compact, Coord(0, 0));
    NothingCompactAfter(compact, unspent, |data|);
    LeafBound(|data|);
    forall p: nat | p < |all| && !Test(compact, p)
      ensures p - RankOf(compact, p) < |ret| && ret[p - RankOf(compact, p)] == all[p]
    {
      PosOfNodeAt(p);
      KeptOrCompact(compact, unspent, p);
      KeptBitAt(NodeAt(p), unspent);
      RebuiltReads(ret, unspent, data, compact, NodeAt(p));
    }
  }

  /** Later, with more leaves and more of them spent, what was compacted is compacted again. */
  lemma CompactedStays(prev: BitSet, next: BitSet, before: BitSet, after: BitSet, m: nat, n: nat)
    requires IsCompact(prev, before, m) && IsCompact(next, after, n)
    requires m <= n && |before| <= |after| && forall l :: 0 <= l < |before| && !before[l] ==> !after[l]
    ensures Covers(prev, next)
  {
    hide NodePos;
    forall p: nat | p < |next| && Test(prev, p) ensures next[p] {
      var c := NodeAt(p);
      PosOfNodeAt(p);
      assert PrunableIn(Parent(c), before, m);
      forall l | StartLeaf(Parent(c)) <= l < EndLeaf(Parent(c)) ensures !Test(after, l) {
        assert !Test(before, l);
      }
      assert PrunableIn(Parent(c), after, n);
    }
  }

  /** The bits are as many as twice the leaves, more than there are hashes: compacting by all of them fails. */
  lemma BuiltBitsPastEnd(next: BitSet, unspent: BitSet, n: nat)
    requires IsCompact(next, unspent, n)
    ensures (forall p: nat :: LeafPos(n) <= p < |next| ==> next[p]) <==> n == 0
  {
    NothingCompactAfter(next, unspent, n);
    if n > 0 {
      HashesBelowBits(n);
      assert !Test(next, LeafPos(n));
    }
  }

  lemma HashesBelowBits(n: nat)
    requires n > 0
    ensures LeafPos(n) < 2 * n
  {
    hide NodePos;
    LeafNodePos(n);
    PopCountPositive(n);
  }

  lemma PopCountPositive(n: nat)
    requires n > 0
    ensures PopCount(n) > 0
  {
  }

  /**
    Compacting the hash file of a range again, by the bits of its positions: it works, and every hash that is not
    compacted is read at its position less the new shift.
   */
  lemma CompactBuilt(all: seq<Hash>, file: seq<Hash>, prev: BitSet, built: BitSet, diff: BitSet, unspent: BitSet, n: nat, kept: seq<Hash>)
    requires IsCompact(built, unspent, n) && |all| == LeafPos(n) && Reads(file, prev, all)
    requires Covers(prev, built) && IsDiff(diff, prev, built[..LeafPos(n)])
    ensures forall q: nat :: |file| <= q < |diff| ==> diff[q]
    ensures IsCompacted(kept, file, diff) ==> Reads(kept, built, all)
  {
    hide LeafPos, Reads, IsDiff, IsCompacted;
    var next := built[..LeafPos(n)];
    CompactAgainIff(all, file, prev, next, diff);
    if IsCompacted(kept, file, diff) {
      CompactAgain(all, file, prev, next, diff, kept);
      ReadsPrefix(kept, next, built, all);
    }
  }

  lemma ReadsPrefix(file: seq<Hash>, bits: BitSet, more: BitSet, all: seq<Hash>)
    requires |bits| == |all| <= |more| && more[..|all|] == bits && Reads(file, bits, all)
    ensures Reads(file, more, all)
  {
    hide RankOf;
    forall p: nat | p <= |all| ensures RankOf(bits, p) == RankOf(more, p) { RankPrefix(bits, more, p); }
  }
}
