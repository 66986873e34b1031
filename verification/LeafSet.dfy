/**
  mmr::ILeafSet, mmr::LeafSet and mmr::LeafSetCache: one bit for each leaf, set while the leaf is unspent, in a
  sparse overlay of bytes over another leaf set or over a file.
 */
module LeafSets {
  import opened Bits
  import opened Merkle
  import opened ByteStrings

  // ---------- bits in bytes ----------

  /** The mask of bit 0 to 7, counted from the most significant bit. */
  function BitToByte(bit: nat): (mask: Byte)
    requires bit < 8
  {
    MaskBound(bit);
    Shl(1, 7 - bit)
  }

  lemma MaskBound(bit: nat)
    requires bit < 8
    ensures Shl(1, 7 - bit) < 0x100
  {
    Pow2Mono(7 - bit, 7);
    assert Pow2(7) == 128;
  }

  /** The masks, from the first bit of a byte to the last. */
  lemma KnownMasks()
    ensures BitToByte(0) == 0x80 && BitToByte(1) == 0x40 && BitToByte(2) == 0x20 && BitToByte(3) == 0x10
    ensures BitToByte(4) == 0x08 && BitToByte(5) == 0x04 && BitToByte(6) == 0x02 && BitToByte(7) == 0x01
  {
  }

  /** A leaf set's content: the value of every byte. */
  type ByteMap = imap<nat, Byte>

  ghost predicate Total(bytes: ByteMap) {
    forall k: nat :: k in bytes
  }

  ghost predicate HasLeaf(bytes: ByteMap, i: nat)
    requires Total(bytes)
  {
    Bit(bytes[i / 8], 7 - i % 8)
  }

  /** The set of leaves the bytes stand for. */
  ghost function LeavesOf(bytes: ByteMap): iset<nat>
    requires Total(bytes)
  {
    iset i: nat | HasLeaf(bytes, i)
  }

  /** No leaf at or above the bound. */
  ghost predicate AllBelow(leaves: iset<nat>, bound: nat) {
    forall i :: i in leaves ==> i < bound
  }

  /** Index i is in the byte k at the place of bit b exactly when it is 8 k + 7 - b. */
  lemma BytePlace(i: nat, k: nat, b: nat)
    requires b < 8
    ensures i / 8 == k && 7 - i % 8 == b <==> i == 8 * k + 7 - b
  {
  }

  lemma EightBits()
    ensures Pow2(8) == 0x100
  {
  }

  lemma ByteBits(x: Byte)
    ensures forall i: nat :: i >= 8 ==> !Bit(x, i)
  {
    EightBits();
    LenLimit(x, 8);
    forall i: nat | i >= 8 ensures !Bit(x, i) { NoBitAboveLen(x, i); }
  }

  lemma IsByte(x: nat)
    requires forall i: nat :: i >= 8 ==> !Bit(x, i)
    ensures x < 0x100
  {
    EightBits();
    if x >= 0x100 {
      var i := HighBit(x, 8);
      assert false;
    }
  }

  lemma FullByte(i: nat)
    ensures Bit(0xff, i) <==> i < 8
  {
    EightBits();
    OnesBit(8, i);
  }

  /** byte |= mask */
  function SetBit(byte: Byte, bit: nat): (result: Byte)
    requires bit < 8
    ensures forall i: nat :: Bit(result, i) <==> Bit(byte, i) || i == 7 - bit
  {
    SetBitCorrect(byte, bit);
    Or(byte, BitToByte(bit))
  }

  lemma SetBitCorrect(byte: Byte, bit: nat)
    requires bit < 8
    ensures Or(byte, BitToByte(bit)) < 0x100
    ensures forall i: nat :: Bit(Or(byte, BitToByte(bit)), i) <==> Bit(byte, i) || i == 7 - bit
  {
    ByteBits(byte);
    forall i: nat ensures Bit(Or(byte, BitToByte(bit)), i) <==> Bit(byte, i) || i == 7 - bit {
      OrBit(byte, BitToByte(bit), i);
      Pow2Bit(7 - bit, i);
    }
    IsByte(Or(byte, BitToByte(bit)));
  }

  /** byte &= (0xff ^ mask) */
  function ClearBit(byte: Byte, bit: nat): (result: Byte)
    requires bit < 8
    ensures forall i: nat :: Bit(result, i) <==> Bit(byte, i) && i != 7 - bit
  {
    ClearBitCorrect(byte, bit);
    And(byte, Xor(0xff, BitToByte(bit)))
  }

  lemma ClearBitCorrect(byte: Byte, bit: nat)
    requires bit < 8
    ensures And(byte, Xor(0xff, BitToByte(bit))) < 0x100
    ensures forall i: nat :: Bit(And(byte, Xor(0xff, BitToByte(bit))), i) <==> Bit(byte, i) && i != 7 - bit
  {
    hide And, Xor, Bit;
    ByteBits(byte);
    var mask := Xor(0xff, BitToByte(bit));
    forall i: nat ensures Bit(And(byte, mask), i) <==> Bit(byte, i) && i != 7 - bit {
      AndBit(byte, mask, i);
      XorBit(0xff, BitToByte(bit), i);
      FullByte(i);
      Pow2Bit(7 - bit, i);
    }
    IsByte(And(byte, mask));
  }

  /** byte & mask is not zero. */
  lemma TestBit(byte: Byte, bit: nat)
    requires bit < 8
    ensures And(byte, BitToByte(bit)) != 0 <==> Bit(byte, 7 - bit)
  {
    forall i: nat ensures Bit(And(byte, BitToByte(bit)), i) <==> Bit(byte, i) && i == 7 - bit {
      AndBit(byte, BitToByte(bit), i);
      Pow2Bit(7 - bit, i);
    }
    if And(byte, BitToByte(bit)) == 0 {
      ZeroBit(7 - bit);
    } else {
      TopBit(And(byte, BitToByte(bit)));
    }
  }

  lemma LeavesAfterSet(bytes: ByteMap, i: nat)
    requires Total(bytes)
    ensures LeavesOf(bytes[i / 8 := SetBit(bytes[i / 8], i % 8)]) == LeavesOf(bytes) + iset{i}
  {
    hide Bit;
    var after := bytes[i / 8 := SetBit(bytes[i / 8], i % 8)];
    forall j: nat ensures HasLeaf(after, j) <==> HasLeaf(bytes, j) || j == i {
    }
  }

  lemma LeavesAfterClear(bytes: ByteMap, i: nat)
    requires Total(bytes)
    ensures LeavesOf(bytes[i / 8 := ClearBit(bytes[i / 8], i % 8)]) == LeavesOf(bytes) - iset{i}
  {
    hide Bit;
    var after := bytes[i / 8 := ClearBit(bytes[i / 8], i % 8)];
    forall j: nat ensures HasLeaf(after, j) <==> HasLeaf(bytes, j) && j != i {
    }
  }

  // ---------- the root, as a function of the set ----------

  /** The number whose binary digits, most significant first, are the membership of m consecutive leaves. */
  ghost function Packed(leaves: iset<nat>, first: nat, m: nat): nat {
    if m == 0 then 0
    else 2 * Packed(leaves, first, m - 1) + (if first + m - 1 in leaves then 1 else 0)
  }

  lemma {:induction false} PackedBit(leaves: iset<nat>, first: nat, m: nat, i: nat)
    ensures Bit(Packed(leaves, first, m), i) <==> i < m && first + m - 1 - i in leaves
  {
    if m == 0 {
      ZeroBit(i);
    } else if i > 0 {
      assert Packed(leaves, first, m) / 2 == Packed(leaves, first, m - 1);
      PackedBit(leaves, first, m - 1, i - 1);
    }
  }

  ghost function PackedByte(leaves: iset<nat>, k: nat): Byte {
    forall i: nat ensures i >= 8 ==> !Bit(Packed(leaves, 8 * k, 8), i) { PackedBit(leaves, 8 * k, 8, i); }
    IsByte(Packed(leaves, 8 * k, 8));
    Packed(leaves, 8 * k, 8)
  }

  lemma BytePacks(bytes: ByteMap, k: nat)
    requires Total(bytes)
    ensures bytes[k] == PackedByte(LeavesOf(bytes), k)
  {
    var leaves := LeavesOf(bytes);
    ByteBits(bytes[k]);
    forall i: nat ensures Bit(bytes[k], i) <==> Bit(PackedByte(leaves, k), i) {
      PackedBit(leaves, 8 * k, 8, i);
      if i < 8 {
        BytePlace(8 * k + 7 - i, k, i);
        assert HasLeaf(bytes, 8 * k + 7 - i) <==> Bit(bytes[k], i);
      }
    }
    SameBits(bytes[k], PackedByte(leaves, k));
  }

  ghost function RootBytes(leaves: iset<nat>, bound: nat): (bytes: Bytes)
    ensures |bytes| == (bound + 7) / 8
    ensures forall k :: 0 <= k < |bytes| ==> bytes[k] == PackedByte(leaves, k)
  {
    seq((bound + 7) / 8, k requires 0 <= k => PackedByte(leaves, k))
  }

  ghost function LeafsetRoot(leaves: iset<nat>, bound: nat): Hash {
    BytesHash(RootBytes(leaves, bound))
  }

  function BitWeight(leaves: iset<nat>, i: nat, weight: nat): nat {
    if i in leaves then weight else 0
  }

  /** What the root hashes: one byte for eight leaves, the first one with the weight 128 and the last one with 1. */
  lemma RootBytesAre(leaves: iset<nat>, bound: nat, k: nat)
    requires k < (bound + 7) / 8
    ensures |RootBytes(leaves, bound)| == (bound + 7) / 8 && LeafsetRoot(leaves, bound) == BytesHash(RootBytes(leaves, bound))
    ensures RootBytes(leaves, bound)[k]
         == BitWeight(leaves, 8 * k, 128) + BitWeight(leaves, 8 * k + 1, 64) + BitWeight(leaves, 8 * k + 2, 32)
          + BitWeight(leaves, 8 * k + 3, 16) + BitWeight(leaves, 8 * k + 4, 8) + BitWeight(leaves, 8 * k + 5, 4)
          + BitWeight(leaves, 8 * k + 6, 2) + BitWeight(leaves, 8 * k + 7, 1)
  {
    hide Packed;
    var first := 8 * k;
    NonePacked(leaves, first);
    PackedStep(leaves, first, 0);
    PackedStep(leaves, first, 1);
    PackedStep(leaves, first, 2);
    PackedStep(leaves, first, 3);
    PackedStep(leaves, first, 4);
    PackedStep(leaves, first, 5);
    PackedStep(leaves, first, 6);
    PackedStep(leaves, first, 7);
  }

  lemma NonePacked(leaves: iset<nat>, first: nat)
    ensures Packed(leaves, first, 0) == 0
  {
  }

  lemma PackedStep(leaves: iset<nat>, first: nat, m: nat)
    ensures Packed(leaves, first, m + 1) == 2 * Packed(leaves, first, m) + BitWeight(leaves, first + m, 1)
  {
  }

  /** Equal roots of leaf sets below the same bound come from equal sets. */
  lemma LeafsetRootBinding(a: iset<nat>, b: iset<nat>, bound: nat)
    requires AllBelow(a, bound) && AllBelow(b, bound)
    requires LeafsetRoot(a, bound) == LeafsetRoot(b, bound)
    ensures a == b
  {
    forall i: nat ensures i in a <==> i in b {
      if i < bound {
        var k := i / 8;
        assert RootBytes(a, bound)[k] == RootBytes(b, bound)[k];
        PackedBit(a, 8 * k, 8, 7 - i % 8);
        PackedBit(b, 8 * k, 8, 7 - i % 8);
      }
    }
  }

  /** The bound up to which Root hashes: none at all when the bound plus seven wraps around. */
  ghost function RootBound(bound: nat): nat {
    if bound + 7 < U64 then bound else 0
  }

  /** The root does not commit to the bound itself, only to how many bytes the code takes for it. */
  lemma LeafsetRootIgnoresBound(leaves: iset<nat>, a: nat, b: nat)
    requires a < U64 && b < U64
    ensures LeafsetRoot(leaves, RootBound(a)) == LeafsetRoot(leaves, RootBound(b)) <==> Word(a + 7) / 8 == Word(b + 7) / 8
  {
    RootSize(a);
    RootSize(b);
    if Word(a + 7) / 8 == Word(b + 7) / 8 {
      assert RootBytes(leaves, RootBound(a)) == RootBytes(leaves, RootBound(b));
    }
  }

  lemma RootSize(bound: nat)
    requires bound < U64
    ensures Word(bound + 7) / 8 == (RootBound(bound) + 7) / 8
  {
    WordOf(bound + 7);
  }

  lemma WrapChangesRoot(leaves: iset<nat>, bound: nat)
    requires bound < U64
    ensures LeafsetRoot(leaves, RootBound(bound)) == LeafsetRoot(leaves, bound) <==> bound + 7 < U64
  {
    if bound + 7 >= U64 { assert |RootBytes(leaves, 0)| < |RootBytes(leaves, bound)|; }
  }

  // ---------- overlays and files ----------

  ghost function Overlay(bytes: ByteMap, modified: map<nat, Byte>): (r: ByteMap)
    requires Total(bytes)
    ensures Total(r)
  {
    imap k: nat | true :: if k in modified then modified[k] else bytes[k]
  }

  /** The byte of a file at an offset, zero past its end. */
  function ByteAt(file: seq<Byte>, k: nat): Byte {
    if k < |file| then file[k] else 0
  }

  /** The k-th byte after the header. */
  function DataByte(file: seq<Byte>, k: nat): Byte {
    ByteAt(file, k + 8)
  }

  /** The file holds the bound in its first eight bytes and the bytes of the set after them. */
  ghost predicate FileHolds(file: seq<Byte>, bytes: ByteMap, bound: nat)
    requires Total(bytes)
  {
    && |file| >= 8 && FromBigEndian(file[..8]) == bound
    && forall k: nat :: bytes[k] == DataByte(file, k)
  }

  /** What a file holds: an empty set when it is too short to have a header. */
  ghost function FileBytes(file: seq<Byte>): (bytes: ByteMap)
    ensures Total(bytes)
  {
    imap k: nat | true :: DataByte(file, k)
  }

  /** No bit is set at or above the bound in the header. */
  ghost predicate WellFormedFile(file: seq<Byte>) {
    |file| >= 8 ==> AllBelow(LeavesOf(FileBytes(file)), FromBigEndian(file[..8]))
  }

  /** File::WriteBytes: each byte is written at its offset; a gap past the end reads as zeros. */
  method WriteBytes(file: seq<Byte>, bytes: map<nat, Byte>) returns (after: seq<Byte>)
    ensures forall k: nat :: ByteAt(after, k) == if k in bytes then bytes[k] else ByteAt(file, k)
    ensures |after| >= |file| && forall k :: k in bytes ==> k < |after|
  {
    after := file;
    var todo := bytes.Keys;
    while todo != {}
      invariant todo <= bytes.Keys && |after| >= |file|
      invariant forall k :: k in bytes.Keys - todo ==> k < |after|
      invariant forall k: nat :: ByteAt(after, k) == if k in bytes.Keys - todo then bytes[k] else ByteAt(file, k)
      decreases todo
    {
      var k :| k in todo;
      after := if k < |after| then after[k := bytes[k]] else after + Zeros(k - |after|) + [bytes[k]];
      todo := todo - {k};
    }
  }

  // ---------- ILeafSet ----------

  datatype ILeafSet = OnFile(file: LeafSet) | Cached(cache: LeafSetCache) {

    function Obj(): object {
      match this
      case OnFile(f) => f
      case Cached(c) => c
    }

    ghost function Repr(): set<object>
    {
      match this
      case OnFile(f) => {f}
      case Cached(c) => c.Repr
    }

    ghost function Bytes(): ByteMap
      reads Obj()
    {
      match this
      case OnFile(f) => f.Bytes
      case Cached(c) => c.Bytes
    }

    function GetNextLeafIdx(): nat
      reads Obj()
    {
      match this
      case OnFile(f) => f.nextLeafIdx
      case Cached(c) => c.nextLeafIdx
    }

    /** The layers agree on every byte. */
    ghost predicate Coherent()
      reads Obj(), Repr()
      ensures Coherent() ==> Obj() in Repr() && Total(Bytes()) && GetNextLeafIdx() < U64
      decreases Repr(), 1
    {
      match this
      case OnFile(f) => f.Coherent()
      case Cached(c) => c.Coherent()
    }

    /** And no bit is set at or above the next leaf index. */
    ghost predicate Valid()
      reads Obj(), Repr()
      decreases Repr(), 2
    {
      Coherent() && AllBelow(LeavesOf(Bytes()), GetNextLeafIdx())
    }

    /** The unspent leaves. */
    ghost function Leaves(): iset<nat>
      requires Coherent()
      reads Obj(), Repr()
    {
      LeavesOf(Bytes())
    }

    function GetByte(k: nat): (byte: Byte)
      requires Coherent()
      reads Obj(), Repr()
      ensures byte == Bytes()[k]
      decreases Repr(), 1
    {
      match this
      case OnFile(f) => f.GetByte(k)
      case Cached(c) => c.GetByte(k)
    }

    method SetByte(k: nat, value: Byte)
      requires Coherent()
      modifies Obj()
      ensures Coherent()
      ensures Bytes() == old(Bytes())[k := value] && GetNextLeafIdx() == old(GetNextLeafIdx())
    {
      match this {
        case OnFile(f) => f.SetByte(k, value);
        case Cached(c) => c.SetByte(k, value);
      }
    }

    method SetNextLeafIdx(next: nat)
      requires Coherent() && next < U64
      modifies Obj()
      ensures Coherent()
      ensures Bytes() == old(Bytes()) && GetNextLeafIdx() == next
    {
      match this {
        case OnFile(f) => f.nextLeafIdx := next;
        case Cached(c) => c.nextLeafIdx := next;
      }
    }

    method Add(idx: nat)
      requires Valid() && idx + 1 < U64
      modifies Obj()
      ensures Valid()
      ensures Leaves() == old(Leaves()) + iset{idx}
      ensures GetNextLeafIdx() == if idx >= old(GetNextLeafIdx()) then idx + 1 else old(GetNextLeafIdx())
    {
      LeavesAfterSet(Bytes(), idx);
      var byte := GetByte(idx / 8);
      byte := SetBit(byte, idx % 8);
      SetByte(idx / 8, byte);
      if idx >= GetNextLeafIdx() {
        SetNextLeafIdx(idx + 1);
      }
    }

    method Remove(idx: nat)
      requires Coherent()
      modifies Obj()
      ensures Coherent() && GetNextLeafIdx() == old(GetNextLeafIdx())
      ensures Leaves() == old(Leaves()) - iset{idx}
    {
      LeavesAfterClear(Bytes(), idx);
      var byte := GetByte(idx / 8);
      byte := ClearBit(byte, idx % 8);
      SetByte(idx / 8, byte);
    }

    predicate Contains(idx: nat)
      requires Coherent()
      reads Obj(), Repr()
      ensures Contains(idx) <==> idx in Leaves()
    {
      TestBit(GetByte(idx / 8), idx % 8);
      And(GetByte(idx / 8), BitToByte(idx % 8)) != 0
    }

    method Root() returns (hash: Hash)
      requires Valid()
      ensures hash == LeafsetRoot(Leaves(), RootBound(GetNextLeafIdx()))
      ensures hash == LeafsetRoot(Leaves(), GetNextLeafIdx()) <==> GetNextLeafIdx() + 7 < U64
    {
      var numBytes := Word(GetNextLeafIdx() + 7) / 8;
      RootSize(GetNextLeafIdx());
      WrapChangesRoot(Leaves(), GetNextLeafIdx());
      var bytes: seq<Byte> := [];
      while |bytes| < numBytes
        invariant |bytes| <= numBytes
        invariant forall k :: 0 <= k < |bytes| ==> bytes[k] == PackedByte(Leaves(), k)
      {
        BytePacks(Bytes(), |bytes|);
        bytes := bytes + [GetByte(|bytes|)];
      }
      assert bytes == RootBytes(Leaves(), RootBound(GetNextLeafIdx()));
      hash := BytesHash(bytes);
    }

    /** Adds the given leaves, then removes every leaf at or above `numLeaves`. */
    method Rewind(numLeaves: nat, leavesToAdd: seq<nat>)
      requires Valid() && numLeaves < U64
      requires forall j :: 0 <= j < |leavesToAdd| ==> leavesToAdd[j] + 1 < U64
      modifies Obj()
      ensures Valid() && GetNextLeafIdx() == numLeaves
      ensures Leaves() == RewoundLeaves(old(Leaves()), leavesToAdd, numLeaves)
    {
      hide Coherent, LeavesOf;
      var j := 0;
      while j < |leavesToAdd|
        invariant 0 <= j <= |leavesToAdd| && Valid()
        invariant Leaves() == iset i: nat | i in old(Leaves()) || i in leavesToAdd[..j]
      {
        Add(leavesToAdd[j]);
        assert leavesToAdd[..j + 1] == leavesToAdd[..j] + [leavesToAdd[j]];
        j := j + 1;
      }
      assert leavesToAdd[..j] == leavesToAdd;

      ghost var all := Leaves();
      var i := numLeaves;
      while i < GetNextLeafIdx()
        invariant Coherent() && i >= numLeaves
        invariant AllBelow(all, GetNextLeafIdx())
        invariant Leaves() == iset l: nat | l in all && !(numLeaves <= l < i)
        decreases GetNextLeafIdx() - i
      {
        Remove(i);
        i := i + 1;
      }
      SetNextLeafIdx(numLeaves);
    }

    method ToBitSet() returns (bitset: seq<bool>)
      requires Valid()
      ensures |bitset| == GetNextLeafIdx()
      ensures forall i: nat :: i in Leaves() <==> i < |bitset| && bitset[i]
    {
      bitset := seq(GetNextLeafIdx(), _ => false);
      var idx := 0;
      while idx < GetNextLeafIdx()
        invariant 0 <= idx <= GetNextLeafIdx() == |bitset|
        invariant forall i :: 0 <= i < idx ==> (bitset[i] <==> i in Leaves())
      {
        if Contains(idx) {
          bitset := bitset[idx := true];
        } else {
          bitset := bitset[idx := false];
        }
        idx := idx + 1;
      }
    }

    /** Takes over bytes and bound; over a file, what the old bound covered beyond the new one is cleared. */
    method ApplyUpdates(next: nat, modified: map<nat, Byte>)
      requires Coherent() && next < U64
      modifies Obj()
      ensures Coherent() && GetNextLeafIdx() == next
      ensures OnFile? ==> Leaves() == Without(LeavesOf(Overlay(old(Bytes()), modified)), next, old(GetNextLeafIdx()))
      ensures Cached? ==> Bytes() == Overlay(old(Bytes()), modified)
      ensures AllBelow(LeavesOf(Overlay(old(Bytes()), modified)), next) ==> Valid() && Bytes() == Overlay(old(Bytes()), modified)
    {
      match this {
        case OnFile(f) => f.ApplyUpdates(next, modified);
        case Cached(c) => c.ApplyUpdates(next, modified);
      }
    }
  }

  ghost function Without(leaves: iset<nat>, from: nat, to: nat): iset<nat> {
    iset i: nat | i in leaves && !(from <= i < to)
  }

  ghost function RewoundLeaves(leaves: iset<nat>, toAdd: seq<nat>, bound: nat): iset<nat> {
    iset i: nat | (i in leaves || i in toAdd) && i < bound
  }

  // ---------- LeafSet ----------

  /** A leaf set over a file, whose first eight bytes are the next leaf index. */
  class LeafSet {
    var nextLeafIdx: nat
    var file: seq<Byte>
    /** Keys are offsets in the file. */
    var modifiedBytes: map<nat, Byte>
    ghost var Bytes: ByteMap

    ghost predicate Coherent()
      reads this
      ensures Coherent() ==> Total(Bytes) && nextLeafIdx < U64
    {
      && Total(Bytes) && nextLeafIdx < U64
      && forall k: nat :: Bytes[k] == if k + 8 in modifiedBytes then modifiedBytes[k + 8] else ByteAt(file, k + 8)
    }

    /** LeafSet::Open on a file, which gets a header if it has none. */
    constructor Open(file: seq<Byte>)
      ensures Coherent() && (OnFile(this).Valid() <==> WellFormedFile(file))
      ensures |file| >= 8 ==> Bytes == FileBytes(file) && nextLeafIdx == FromBigEndian(file[..8])
      ensures |file| >= 8 ==> forall k: nat :: Bytes[k] == if k + 8 < |file| then file[k + 8] else 0
      ensures |file| < 8 ==> LeavesOf(Bytes) == iset{} && nextLeafIdx == 0
    {
      modifiedBytes := map[];
      if |file| < 8 {
        this.file := file + BigEndian(0, 8);
        nextLeafIdx := 0;
        Bytes := FileBytes(file + BigEndian(0, 8));
      } else {
        this.file := file;
        nextLeafIdx := FromBigEndian(file[..8]);
        Bytes := FileBytes(file);
      }
      new;
      if |file| < 8 { FreshHeader(file); } else { HeaderFits(file[..8]); }
    }

    function GetByte(k: nat): (byte: Byte)
      requires Coherent()
      reads this
      ensures byte == Bytes[k]
    {
      if k + 8 in modifiedBytes then modifiedBytes[k + 8]
      else if k + 8 < |file| then file[k + 8]
      else 0
    }

    method SetByte(k: nat, value: Byte)
      requires Coherent()
      modifies this
      ensures Coherent() && Bytes == old(Bytes)[k := value] && nextLeafIdx == old(nextLeafIdx)
    {
      modifiedBytes := modifiedBytes[k + 8 := value];
      Bytes := Bytes[k := value];
    }

    method ApplyUpdates(next: nat, modified: map<nat, Byte>)
      requires Coherent() && next < U64
      modifies this
      ensures Coherent() && nextLeafIdx == next
      ensures LeavesOf(Bytes) == Without(LeavesOf(Overlay(old(Bytes), modified)), next, old(nextLeafIdx))
      ensures AllBelow(LeavesOf(Overlay(old(Bytes), modified)), next) ==>
        OnFile(this).Valid() && Bytes == Overlay(old(Bytes), modified)
      ensures modifiedBytes == map[] && FileHolds(file, Bytes, next)
    {
      Merge(modified);
      ghost var target := Bytes;
      var idx := next;
      while idx < nextLeafIdx
        invariant Coherent() && nextLeafIdx == old(nextLeafIdx) && next <= idx && (idx == next || idx <= nextLeafIdx)
        invariant LeavesOf(Bytes) == Without(LeavesOf(target), next, idx)
        decreases nextLeafIdx - idx
      {
        OnFile(this).Remove(idx);
        idx := idx + 1;
      }
      assert LeavesOf(Bytes) == Without(LeavesOf(target), next, old(nextLeafIdx));
      nextLeafIdx := next;
      if AllBelow(LeavesOf(target), next) {
        assert LeavesOf(Bytes) == LeavesOf(target);
        SameLeavesSameBytes(Bytes, target);
      }
      Flush();
    }

    method Merge(modified: map<nat, Byte>)
      requires Coherent()
      modifies this
      ensures Coherent() && Bytes == Overlay(old(Bytes), modified) && nextLeafIdx == old(nextLeafIdx)
    {
      var todo := modified.Keys;
      while todo != {}
        invariant todo <= modified.Keys && Coherent() && nextLeafIdx == old(nextLeafIdx)
        invariant forall k: nat :: Bytes[k] == if k in modified.Keys - todo then modified[k] else old(Bytes)[k]
        decreases todo
      {
        var k :| k in todo;
        SetByte(k, modified[k]);
        todo := todo - {k};
      }
      assert Bytes == Overlay(old(Bytes), modified);
    }

    /** Writes the header and the modified bytes to the file. */
    method Flush()
      requires Coherent()
      modifies this
      ensures Coherent() && Bytes == old(Bytes) && nextLeafIdx == old(nextLeafIdx)
      ensures modifiedBytes == map[] && FileHolds(file, Bytes, nextLeafIdx)
      ensures |file| >= 8 && file[..8] == BigEndian(nextLeafIdx, 8)
      ensures forall k: nat :: Bytes[k] == if k + 8 < |file| then file[k + 8] else 0
    {
      var header := BigEndian(nextLeafIdx, 8);
      var i := 0;
      while i < 8
        invariant 0 <= i <= 8 && file == old(file) && Bytes == old(Bytes) && nextLeafIdx == old(nextLeafIdx)
        invariant forall j: nat :: j >= 8 ==> (j in modifiedBytes <==> j in old(modifiedBytes))
        invariant forall j: nat :: j >= 8 && j in modifiedBytes ==> modifiedBytes[j] == old(modifiedBytes)[j]
        invariant forall k :: 0 <= k < i ==> k in modifiedBytes && modifiedBytes[k] == header[k]
      {
        modifiedBytes := modifiedBytes[i := header[i]];
        i := i + 1;
      }
      file := WriteBytes(file, modifiedBytes);
      assert 7 in modifiedBytes;
      HeaderWritten(file, nextLeafIdx, header);
      modifiedBytes := map[];
    }
  }

  lemma FreshHeader(file: seq<Byte>)
    requires |file| < 8
    ensures LeavesOf(FileBytes(file + BigEndian(0, 8))) == iset{}
  {
    var after := file + BigEndian(0, 8);
    ZeroDigits(8);
    forall i: nat ensures !HasLeaf(FileBytes(after), i) {
      assert ByteAt(after, i / 8 + 8) == 0;
      ZeroBit(7 - i % 8);
    }
  }

  lemma {:induction false} ZeroDigits(n: nat)
    ensures forall k :: 0 <= k < n ==> BigEndian(0, n)[k] == 0
  {
    if n > 0 { ZeroDigits(n - 1); }
  }

  lemma HeaderWritten(file: seq<Byte>, bound: nat, header: seq<Byte>)
    requires bound < U64 && header == BigEndian(bound, 8)
    requires |file| >= 8 && forall k :: 0 <= k < 8 ==> ByteAt(file, k) == header[k]
    ensures FromBigEndian(file[..8]) == bound
  {
    assert file[..8] == header;
    Pow2Of64();
    Pow256Of8();
    BigEndianRoundTrip(bound, 8);
  }

  lemma SameLeavesSameBytes(a: ByteMap, b: ByteMap)
    requires Total(a) && Total(b) && LeavesOf(a) == LeavesOf(b)
    ensures a == b
  {
    forall k: nat ensures a[k] == b[k] {
      BytePacks(a, k);
      BytePacks(b, k);
    }
  }

  lemma HeaderFits(header: seq<Byte>)
    requires |header| == 8
    ensures FromBigEndian(header) < U64
  {
    Pow256Of8();
    ValueBelow(header);
  }

  /** What is flushed is what is read back from the file. */
  method FlushThenOpen(leafSet: LeafSet) returns (again: LeafSet)
    requires OnFile(leafSet).Valid()
    modifies leafSet
    ensures fresh(again) && OnFile(leafSet).Valid() && OnFile(again).Valid()
    ensures again.Bytes == leafSet.Bytes == old(leafSet.Bytes) && again.nextLeafIdx == leafSet.nextLeafIdx == old(leafSet.nextLeafIdx)
  {
    leafSet.Flush();
    assert FileBytes(leafSet.file) == leafSet.Bytes;
    again := new LeafSet.Open(leafSet.file);
  }

  lemma CachedLeafSetValid(c: LeafSetCache)
    ensures ILeafSet.Cached(c).Valid() <==> c.Valid()
  {
  }

  /** The leaf set under a valid cache is valid. */
  lemma LeafSetBaseValid(c: LeafSetCache)
    requires c.Valid()
    ensures c.base.Valid() && c.base.Obj() in c.base.Repr() && c in c.Repr
  {
    assert c.Coherent();
  }

  // ---------- LeafSetCache ----------

  /** Changed bytes kept in memory over another leaf set. */
  class LeafSetCache {
    const base: ILeafSet
    var nextLeafIdx: nat
    var modifiedBytes: map<nat, Byte>
    ghost var Bytes: ByteMap
    ghost const Repr: set<object>

    ghost predicate Coherent()
      reads this, Repr
      ensures Coherent() ==> Total(Bytes) && nextLeafIdx < U64 && this in Repr
      decreases Repr, 0
    {
      && this in Repr && base.Obj() in Repr
      && base.Repr() <= Repr && this !in base.Repr()
      && base.Coherent() && AllBelow(LeavesOf(base.Bytes()), base.GetNextLeafIdx())
      && nextLeafIdx < U64
      && Bytes == Overlay(base.Bytes(), modifiedBytes)
    }

    /** Coherent, and no bit is set at or above the next leaf index. */
    ghost predicate Valid()
      reads this, Repr
      ensures Valid() ==> Total(Bytes)
    {
      Coherent() && AllBelow(LeavesOf(Bytes), nextLeafIdx)
    }

    constructor (base: ILeafSet)
      requires base.Valid()
      ensures Valid() && this.base == base && Repr == base.Repr() + {this}
      ensures Bytes == base.Bytes() && nextLeafIdx == base.GetNextLeafIdx()
    {
      this.base := base;
      nextLeafIdx := base.GetNextLeafIdx();
      modifiedBytes := map[];
      Bytes := base.Bytes();
      Repr := base.Repr() + {this};
    }

    function GetByte(k: nat): (byte: Byte)
      requires Coherent()
      reads this, Repr
      ensures byte == Bytes[k]
      decreases Repr, 0
    {
      if k in modifiedBytes then modifiedBytes[k] else base.GetByte(k)
    }

    method SetByte(k: nat, value: Byte)
      requires Coherent()
      modifies this
      ensures Coherent() && Bytes == old(Bytes)[k := value] && nextLeafIdx == old(nextLeafIdx)
    {
      modifiedBytes := modifiedBytes[k := value];
      Bytes := Bytes[k := value];
    }

    // what the cache inherits from ILeafSet

    method Add(idx: nat)
      requires Valid() && idx + 1 < U64
      modifies this
      ensures Valid() && LeavesOf(Bytes) == old(LeavesOf(Bytes)) + iset{idx}
      ensures nextLeafIdx == if idx >= old(nextLeafIdx) then idx + 1 else old(nextLeafIdx)
    {
      hide LeavesOf, Coherent;
      ILeafSet.Cached(this).Add(idx);
    }

    method Remove(idx: nat)
      requires Valid()
      modifies this
      ensures Valid() && LeavesOf(Bytes) == old(LeavesOf(Bytes)) - iset{idx} && nextLeafIdx == old(nextLeafIdx)
    {
      hide LeavesOf, Coherent;
      ILeafSet.Cached(this).Remove(idx);
    }

    predicate Contains(idx: nat)
      requires Valid()
      reads this, Repr
      ensures Contains(idx) <==> idx in LeavesOf(Bytes)
    {
      ILeafSet.Cached(this).Contains(idx)
    }

    method Rewind(numLeaves: nat, leavesToAdd: seq<nat>)
      requires Valid() && numLeaves < U64
      requires forall j :: 0 <= j < |leavesToAdd| ==> leavesToAdd[j] + 1 < U64
      modifies this
      ensures Valid() && nextLeafIdx == numLeaves
      ensures LeavesOf(Bytes) == RewoundLeaves(old(LeavesOf(Bytes)), leavesToAdd, numLeaves)
    {
      hide LeavesOf, Coherent;
      ILeafSet.Cached(this).Rewind(numLeaves, leavesToAdd);
    }

    method ApplyUpdates(next: nat, modified: map<nat, Byte>)
      requires Coherent() && next < U64
      modifies this
      ensures Coherent() && Bytes == Overlay(old(Bytes), modified) && nextLeafIdx == next
    {
      nextLeafIdx := next;
      var todo := modified.Keys;
      while todo != {}
        invariant todo <= modified.Keys && Coherent() && nextLeafIdx == next
        invariant forall k: nat :: Bytes[k] == if k in modified.Keys - todo then modified[k] else old(Bytes)[k]
        decreases todo
      {
        var k :| k in todo;
        SetByte(k, modified[k]);
        todo := todo - {k};
      }
      assert Bytes == Overlay(old(Bytes), modified);
    }

    /** Gives the base this cache's bytes and bound; what this cache reads does not change. */
    method Flush()
      requires Valid()
      modifies this, base.Obj()
      ensures Valid() && Bytes == old(Bytes) && nextLeafIdx == old(nextLeafIdx)
      ensures base.Bytes() == Bytes && base.GetNextLeafIdx() == nextLeafIdx
      ensures modifiedBytes == map[]
    {
      assert Coherent();
      base.ApplyUpdates(nextLeafIdx, modifiedBytes);
      modifiedBytes := map[];
    }
  }
}
