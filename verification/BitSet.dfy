/** BitSet: a list of bits, the rank of an index, and the bytes a bit set is written as. */
module BitSets {
  import opened Bits
  import opened LeafSets

  type BitSet = seq<bool>

  /** False past the end. */
  predicate Test(bits: BitSet, i: nat) {
    i < |bits| && bits[i]
  }

  /** The number of set bits strictly below i. */
  ghost function RankOf(bits: BitSet, i: nat): (rank: nat)
    ensures rank <= i
  {
    if i == 0 then 0 else RankOf(bits, i - 1) + if Test(bits, i - 1) then 1 else 0
  }

  lemma RankStep(bits: BitSet, i: nat)
    ensures RankOf(bits, 0) == 0
    ensures RankOf(bits, i + 1) == RankOf(bits, i) + if Test(bits, i) then 1 else 0
  {
  }

  lemma {:induction false} RankPastEnd(bits: BitSet, i: nat)
    requires i >= |bits|
    ensures RankOf(bits, i) == RankOf(bits, |bits|)
  {
    if i > |bits| { RankPastEnd(bits, i - 1); }
  }

  lemma {:induction false} RankPrefix(a: BitSet, b: BitSet, i: nat)
    requires forall j :: 0 <= j < i ==> Test(a, j) == Test(b, j)
    ensures RankOf(a, i) == RankOf(b, i)
  {
    if i > 0 { RankPrefix(a, b, i - 1); }
  }

  /** Ranks of set bits are distinct and ordered. */
  lemma {:induction false} RankMono(bits: BitSet, i: nat, j: nat)
    requires i < j
    ensures RankOf(bits, i) <= RankOf(bits, j)
    ensures Test(bits, i) ==> RankOf(bits, i) < RankOf(bits, j)
  {
    if i + 1 < j { RankMono(bits, i, j - 1); }
  }

  method Rank(bits: BitSet, idx: nat) returns (rank: nat)
    ensures rank == RankOf(bits, idx)
  {
    rank := 0;
    var i := 0;
    while i < idx
      invariant 0 <= i <= idx && rank == RankOf(bits, i)
    {
      if i >= |bits| {
        RankPastEnd(bits, i);
        RankPastEnd(bits, idx);
        break;
      }
      if bits[i] {
        rank := rank + 1;
      }
      i := i + 1;
    }
  }

  // ---------- bytes ----------

  function Zeros(k: nat): (bits: BitSet)
    ensures |bits| == k && forall i :: 0 <= i < k ==> !bits[i]
  {
    seq(k, _ => false)
  }

  /** The bits of the bytes, from the highest bit of the first one. */
  function BitsOf(bytes: seq<Byte>): (bits: BitSet)
    ensures |bits| == 8 * |bytes|
    ensures forall i :: 0 <= i < |bits| ==> bits[i] == Bit(bytes[i / 8], 7 - i % 8)
  {
    seq(8 * |bytes|, i requires 0 <= i < 8 * |bytes| => Bit(bytes[i / 8], 7 - i % 8))
  }

  /** The j-th bit of a byte is the one under the j-th mask, of which the first is 0x80. */
  lemma BitsAreMasked(bytes: seq<Byte>, k: nat, j: nat)
    requires k < |bytes| && j < 8
    ensures BitsOf(bytes)[8 * k + j] <==> And(bytes[k], BitToByte(j)) != 0
  {
    TestBit(bytes[k], j);
    assert (8 * k + j) / 8 == k && (8 * k + j) % 8 == j;
  }

  /** How many bits the last byte of n bits has left over. */
  function Padding(n: nat): (k: nat)
    ensures (n + k) % 8 == 0 && k < 8
    ensures k == 0 <==> n % 8 == 0
  {
    (8 - n % 8) % 8
  }

  method From(bytes: seq<Byte>) returns (bits: BitSet)
    ensures bits == BitsOf(bytes)
  {
    hide Bit, And, BitToByte;
    bits := [];
    var k := 0;
    while k < |bytes|
      invariant 0 <= k <= |bytes| && |bits| == 8 * k
      invariant forall j :: 0 <= j < |bits| ==> bits[j] == Bit(bytes[j / 8], 7 - j % 8)
    {
      var i := 0;
      while i < 8
        invariant 0 <= i <= 8 && |bits| == 8 * k + i
        invariant forall j :: 0 <= j < |bits| ==> bits[j] == Bit(bytes[j / 8], 7 - j % 8)
      {
        TestBit(bytes[k], i);
        bits := bits + [And(bytes[k], BitToByte(i)) != 0];
        i := i + 1;
      }
      k := k + 1;
    }
  }

  /** The bits up to n have been written. */
  ghost predicate Written(bytes: seq<Byte>, bits: BitSet, n: nat) {
    forall i: nat :: i < 8 * |bytes| ==> (Bit(bytes[i / 8], 7 - i % 8) <==> i < n && Test(bits, i))
  }

  lemma NoneWritten(bytes: seq<Byte>, bits: BitSet)
    requires forall k :: 0 <= k < |bytes| ==> bytes[k] == 0
    ensures Written(bytes, bits, 0)
  {
    forall i: nat | i < 8 * |bytes| ensures !Bit(bytes[i / 8], 7 - i % 8) { ZeroBit(7 - i % 8); }
  }

  lemma WriteNext(bytes: seq<Byte>, bits: BitSet, k: nat, j: nat)
    requires k < |bytes| && j < 8 && Written(bytes, bits, 8 * k + j)
    ensures Written(if Test(bits, 8 * k + j) then bytes[k := SetBit(bytes[k], j)] else bytes, bits, 8 * k + j + 1)
  {
    hide Bit, SetBit;
    var after := if Test(bits, 8 * k + j) then bytes[k := SetBit(bytes[k], j)] else bytes;
    forall i: nat | i < 8 * |after|
      ensures Bit(after[i / 8], 7 - i % 8) <==> i < 8 * k + j + 1 && Test(bits, i)
    {
      BytePlace(i, k, 7 - j);
      assert Bit(bytes[i / 8], 7 - i % 8) <==> i < 8 * k + j && Test(bits, i);
    }
  }

  /** The bytes hold the bits, and zeros after the last one up to the end of its byte. */
  method ToBytes(bits: BitSet) returns (bytes: seq<Byte>)
    ensures BitsOf(bytes) == bits + Zeros(Padding(|bits|))
  {
    hide Written, Bit, SetBit;
    bytes := seq((|bits| + 7) / 8, _ => 0);
    NoneWritten(bytes, bits);
    var i := 0;
    while i < |bytes|
      invariant 0 <= i <= |bytes| == (|bits| + 7) / 8 && Written(bytes, bits, 8 * i)
    {
      var j := 0;
      while j < 8
        invariant 0 <= j <= 8 && |bytes| == (|bits| + 7) / 8 && Written(bytes, bits, 8 * i + j)
      {
        WriteNext(bytes, bits, i, j);
        var bitIndex := i * 8 + j;
        if |bits| > bitIndex && bits[bitIndex] {
          bytes := bytes[i := SetBit(bytes[i], j)];
        }
        j := j + 1;
      }
      i := i + 1;
    }
    AllWritten(bytes, bits);
  }

  lemma AllWritten(bytes: seq<Byte>, bits: BitSet)
    requires |bytes| == (|bits| + 7) / 8 && Written(bytes, bits, 8 * |bytes|)
    ensures BitsOf(bytes) == bits + Zeros(Padding(|bits|))
  {
    hide Bit;
    var padded := bits + Zeros(Padding(|bits|));
    assert |padded| == 8 * |bytes|;
    forall i | 0 <= i < |padded| ensures BitsOf(bytes)[i] == padded[i] {
      assert Bit(bytes[i / 8], 7 - i % 8) <==> Test(bits, i);
    }
  }

  /** Zeros at the end change no bit and no rank. */
  lemma ZerosChangeNothing(bits: BitSet, k: nat, i: nat)
    ensures Test(bits + Zeros(k), i) <==> Test(bits, i)
    ensures RankOf(bits + Zeros(k), i) == RankOf(bits, i)
  {
    RankPrefix(bits + Zeros(k), bits, i);
  }
}
