/** Lists of bytes, and the numbers they stand for in big-endian order. */
module ByteStrings {
  import opened Bits
  import Arith

  function Pow256(k: nat): (p: nat)
    ensures p >= 1
  {
    if k == 0 then 1 else 256 * Pow256(k - 1)
  }

  lemma {:induction false} Pow256Of(a: nat, b: nat)
    ensures Pow256(a + b) == Pow256(a) * Pow256(b)
  {
    if a > 0 {
      Pow256Of(a - 1, b);
      assert 256 * (Pow256(a - 1) * Pow256(b)) == (256 * Pow256(a - 1)) * Pow256(b);
    }
  }

  lemma Pow256Of4()
    ensures Pow256(4) == 0x1_0000_0000
  {
  }

  lemma Pow256Of8()
    ensures Pow256(8) == U64
  {
    Pow256Of4();
    hide Pow256;
    Pow256Of(4, 4);
  }

  /** The n low digits of x in base 256. */
  function BigEndian(x: nat, n: nat): (bytes: seq<Byte>)
    ensures |bytes| == n
  {
    if n == 0 then [] else BigEndian(x / 0x100, n - 1) + [x % 0x100]
  }

  function FromBigEndian(bytes: seq<Byte>): nat {
    if bytes == [] then 0 else 0x100 * FromBigEndian(bytes[..|bytes| - 1]) + bytes[|bytes| - 1]
  }

  /** A number that fits is read back from its digits. */
  lemma {:induction false} BigEndianRoundTrip(x: nat, n: nat)
    requires x < Pow256(n)
    ensures FromBigEndian(BigEndian(x, n)) == x
  {
    if n > 0 {
      BigEndianRoundTrip(x / 0x100, n - 1);
      var bytes := BigEndian(x, n);
      assert bytes[..|bytes| - 1] == BigEndian(x / 0x100, n - 1);
    }
  }

  /** The byte at index i stands for the power n - 1 - i of 256. */
  lemma {:induction false} BigEndianAt(x: nat, n: nat, i: nat)
    requires i < n
    ensures BigEndian(x, n)[i] == (x / Pow256(n - 1 - i)) % 0x100
  {
    if i < n - 1 {
      BigEndianAt(x / 0x100, n - 1, i);
      Arith.DivDiv(x, 0x100, Pow256(n - 2 - i));
    }
  }

  lemma {:induction false} ValueBelow(b: seq<Byte>)
    ensures FromBigEndian(b) < Pow256(|b|)
  {
    if b != [] { ValueBelow(b[..|b| - 1]); }
  }

  function Zeros(n: nat): (zeros: seq<Byte>)
    ensures |zeros| == n && forall k :: 0 <= k < n ==> zeros[k] == 0
  {
    seq(n, _ => 0)
  }

  function Concat(pieces: seq<seq<Byte>>): seq<Byte> {
    if pieces == [] then [] else Concat(pieces[..|pieces| - 1]) + pieces[|pieces| - 1]
  }

  lemma ConcatStep(pieces: seq<seq<Byte>>, i: nat)
    requires i < |pieces|
    ensures Concat(pieces[..i + 1]) == Concat(pieces[..i]) + pieces[i]
  {
    assert pieces[..i + 1][..i] == pieces[..i];
  }

  lemma {:induction false} ConcatFront(pieces: seq<seq<Byte>>)
    requires pieces != []
    ensures Concat(pieces) == pieces[0] + Concat(pieces[1..])
  {
    var init, last := pieces[..|pieces| - 1], pieces[|pieces| - 1];
    if init == [] {
      assert pieces[1..] == [];
    } else {
      ConcatFront(init);
      assert pieces[1..][..|pieces| - 2] == init[1..];
      assert pieces[0] + (Concat(init[1..]) + last) == (pieces[0] + Concat(init[1..])) + last;
    }
  }
}
