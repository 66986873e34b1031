/** BitStreamWriter and BitStreamReader: numbers of any width packed most significant bit first. */
module BitStreams {
  import opened Bits
  import opened Arith
  import opened Wrappers

  // ---------- numbers as lists of bits ----------

  /** The n low bits of x, most significant first. */
  function ToBits(x: nat, n: nat): (bits: seq<bool>)
    ensures |bits| == n
  {
    if n == 0 then [] else ToBits(x / 2, n - 1) + [x % 2 == 1]
  }

  /** Bit k of x, counted from the lowest one. */
  ghost predicate BitAt(x: nat, k: nat) {
    (x / Pow2(k)) % 2 == 1
  }

  lemma {:induction false} BitIs(x: nat, k: nat)
    ensures Bit(x, k) <==> BitAt(x, k)
  {
    if k > 0 {
      BitIs(x / 2, k - 1);
      assert Pow2(k) == 2 * Pow2(k - 1);
      DivDiv(x, 2, Pow2(k - 1));
    } else {
      Pow2Zero();
    }
  }

  lemma {:induction false} ToBitsAt(x: nat, n: nat, i: nat)
    requires i < n
    ensures ToBits(x, n)[i] <==> Bit(x, n - 1 - i)
  {
    if i < n - 1 { ToBitsAt(x / 2, n - 1, i); }
  }

  /** Bit i of n, from the highest one. */
  lemma ToBitsAre(x: nat, n: nat, i: nat)
    requires i < n
    ensures ToBits(x, n)[i] <==> (x / Pow2(n - 1 - i)) % 2 == 1
  {
    ToBitsAt(x, n, i);
    BitIs(x, n - 1 - i);
  }

  function FromBits(bits: seq<bool>): nat {
    if bits == [] then 0 else 2 * FromBits(bits[..|bits| - 1]) + if bits[|bits| - 1] then 1 else 0
  }

  lemma {:induction false} FromBitsBound(bits: seq<bool>)
    ensures FromBits(bits) < Pow2(|bits|)
  {
    if bits != [] { FromBitsBound(bits[..|bits| - 1]); }
  }

  lemma {:induction false} FromBitsConcat(a: seq<bool>, b: seq<bool>)
    ensures FromBits(a + b) == FromBits(a) * Pow2(|b|) + FromBits(b)
  {
    if b == [] {
      assert a + b == a;
    } else {
      var init := b[..|b| - 1];
      assert (a + b)[..|a + b| - 1] == a + init;
      FromBitsConcat(a, init);
      assert Pow2(|b|) == 2 * Pow2(|b| - 1);
      assert FromBits(a) * Pow2(|b|) == 2 * (FromBits(a) * Pow2(|b| - 1));
    }
  }

  lemma {:induction false} ToFromBits(bits: seq<bool>)
    ensures ToBits(FromBits(bits), |bits|) == bits
  {
    if bits != [] {
      ToFromBits(bits[..|bits| - 1]);
      assert bits == bits[..|bits| - 1] + [bits[|bits| - 1]];
    }
  }

  lemma {:induction false} FromToBits(x: nat, n: nat)
    ensures Pow2(n) > 0 && FromBits(ToBits(x, n)) == x % Pow2(n)
  {
    if n == 0 {
      assert Pow2(0) == 1;
    } else {
      FromToBits(x / 2, n - 1);
      assert ToBits(x, n)[..n - 1] == ToBits(x / 2, n - 1);
      assert Pow2(n) == 2 * Pow2(n - 1);
      DivDiv(x, 2, Pow2(n - 1));
    }
  }

  /** The n + m low bits are n bits and the m lowest ones. */
  lemma {:induction false} ToBitsSplit(x: nat, n: nat, m: nat)
    ensures ToBits(x, n + m) == ToBits(Shr(x, m), n) + ToBits(x, m)
  {
    if m == 0 {
      assert ToBits(x, n) + [] == ToBits(x, n);
    } else {
      ToBitsSplit(x / 2, n, m - 1);
      assert ToBits(x, n + m) == ToBits(x / 2, n + m - 1) + [x % 2 == 1];
    }
  }

  /** The n low bits of each word, one after the other. */
  function Join(words: seq<nat>, n: nat): (bits: seq<bool>)
    ensures |bits| == n * |words|
  {
    if words == [] then [] else Join(words[..|words| - 1], n) + ToBits(words[|words| - 1], n)
  }

  function BytesToBits(bytes: seq<Byte>): (bits: seq<bool>)
    ensures |bits| == 8 * |bytes|
  {
    Join(bytes, 8)
  }

  function Zeros(n: nat): (zeros: seq<bool>)
    ensures |zeros| == n && forall i :: 0 <= i < n ==> !zeros[i]
  {
    seq(n, _ => false)
  }

  lemma {:induction false} FromZeros(n: nat)
    ensures FromBits(Zeros(n)) == 0
  {
    if n > 0 {
      assert Zeros(n)[..n - 1] == Zeros(n - 1);
      FromZeros(n - 1);
    }
  }

  lemma Pow2Of8()
    ensures Pow2(8) == 256
  {
  }

  // ---------- the arithmetic of one step ----------

  lemma Pow2Add(a: nat, b: nat)
    ensures Pow2(a + b) == Pow2(a) * Pow2(b)
  {
    hide Shl;
    ShlShl(1, a, b);
    ShlIs(Pow2(a), b);
  }

  lemma {:induction false} ShlIs(x: nat, k: nat)
    ensures Shl(x, k) == x * Pow2(k)
  {
    if k == 0 {
      assert Pow2(0) == 1;
    } else {
      ShlIs(x, k - 1);
      assert Pow2(k) == 2 * Pow2(k - 1);
      assert x * (2 * Pow2(k - 1)) == 2 * (x * Pow2(k - 1));
    }
  }

  lemma {:induction false} ShrIs(x: nat, k: nat)
    ensures Pow2(k) > 0 && Shr(x, k) == x / Pow2(k)
  {
    if k == 0 {
      assert Pow2(0) == 1;
    } else {
      ShrIs(x / 2, k - 1);
      assert Pow2(k) == 2 * Pow2(k - 1);
      DivDiv(x, 2, Pow2(k - 1));
    }
  }

  lemma WordIs(n: nat)
    requires n <= 64
    ensures U64 == Pow2(64 - n) * Pow2(n)
  {
    Pow2Of64();
    Pow2Add(64 - n, n);
  }

  /**
    What Write adds to the buffer: of the `nbits` low bits of the data, the leading ones, as many as there is room for,
    moved to their place in the byte.
   */
  function Piece(data: nat, nbits: nat, offset: nat): nat
    requires nbits <= 64
  {
    Shr(Shl(data, 64 - nbits) % U64, 56 + offset)
  }

  lemma Wrapped(data: nat, a: nat, b: nat)
    requires a > 0 && b > 0 && U64 == b * a
    ensures (data * b) % U64 == b * (data % a)
  {
    ScaledDiv(data, a, b);
    assert data * b == b * data;
  }

  /** The word after the left shift: the `nbits` low bits of the data, moved to the top. */
  lemma ShiftedWord(data: nat, nbits: nat)
    requires nbits <= 64
    ensures Pow2(nbits) > 0 && Shl(data, 64 - nbits) % U64 == Pow2(64 - nbits) * (data % Pow2(nbits))
  {
    hide *;
    ShlIs(data, 64 - nbits);
    WordIs(nbits);
    Wrapped(data, Pow2(nbits), Pow2(64 - nbits));
  }

  /** The leading `bits` bits of the `nbits` low bits of the data. */
  function Leading(data: nat, nbits: nat, bits: nat): nat
    requires bits <= nbits
  {
    FromBits(ToBits(Shr(data, nbits - bits), bits))
  }

  lemma LeadingIs(data: nat, nbits: nat, bits: nat)
    requires bits <= nbits
    ensures Pow2(nbits) > 0 && Pow2(nbits - bits) > 0 && Leading(data, nbits, bits) == data % Pow2(nbits) / Pow2(nbits - bits)
  {
    hide Pow2, Shr;
    ShrIs(data, nbits - bits);
    FromToBits(Shr(data, nbits - bits), bits);
    Pow2Add(nbits - bits, bits);
    TopOf(data, Pow2(nbits - bits), Pow2(bits));
  }

  lemma PieceOfMany(data: nat, nbits: nat, offset: nat)
    requires offset < 8 && 8 - offset <= nbits <= 64
    ensures Piece(data, nbits, offset) == Leading(data, nbits, 8 - offset)
  {
    hide Pow2, Shl, Shr, Leading;
    var bits := 8 - offset;
    ShiftedWord(data, nbits);
    ShrIs(Shl(data, 64 - nbits) % U64, 56 + offset);
    LeadingIs(data, nbits, bits);
    Pow2Add(64 - nbits, nbits - bits);
    ScaledDiv(data % Pow2(nbits), Pow2(nbits - bits), Pow2(64 - nbits));
  }

  lemma PieceOfFew(data: nat, nbits: nat, offset: nat)
    requires offset < 8 && nbits <= 8 - offset
    ensures Piece(data, nbits, offset) == Leading(data, nbits, nbits) * Pow2(8 - offset - nbits)
  {
    hide Pow2, Shl, Shr, Leading;
    var rest := 8 - offset - nbits;
    ShiftedWord(data, nbits);
    ShrIs(Shl(data, 64 - nbits) % U64, 56 + offset);
    LeadingIs(data, nbits, nbits);
    Pow2Zero();
    Pow2Add(56 + offset, rest);
    ProductOver(Pow2(56 + offset), Pow2(rest), data % Pow2(nbits));
  }

  lemma ProductOver(p: nat, r: nat, v: nat)
    requires p > 0
    ensures (p * r) * v / p == v * r && v / 1 == v
  {
    assert (p * r) * v == p * (r * v);
    AddMultiple(r * v, p, 0);
  }

  /** The upper part of x modulo a b. */
  lemma TopOf(x: nat, a: nat, b: nat)
    requires a > 0 && b > 0
    ensures a * b > 0 && x % (a * b) / a == x / a % b
  {
    DivDiv(x, a, b);
    AddMultiple(x / a % b, a, x % a);
  }

  lemma {:induction false} OrZero(x: nat)
    ensures Or(x, 0) == x
  {
    if x > 0 { OrZero(x / 2); }
  }

  /** Or of numbers without a common bit is their sum. */
  lemma {:induction false} OrIsSum(t: nat, k: nat, b: nat)
    requires b < Pow2(k)
    ensures Or(Shl(t, k), b) == Shl(t, k) + b
  {
    if k == 0 {
      OrZero(t);
    } else {
      assert Pow2(k) == 2 * Pow2(k - 1) && Shl(t, k) == 2 * Shl(t, k - 1);
      OrIsSum(t, k - 1, b / 2);
      HalvesOfOr(Shl(t, k), b);
    }
  }

  /** Adding a piece of `bits` bits to a buffer that holds the bits `pending`. */
  lemma BufferStep(pending: seq<bool>, data: nat, nbits: nat, bits: nat)
    requires |pending| < 8 && 0 < nbits <= 64 && bits == (if 8 - |pending| < nbits then 8 - |pending| else nbits)
    ensures var more := ToBits(Shr(data, nbits - bits), bits);
      Or(Shl(FromBits(pending), 8 - |pending|), Piece(data, nbits, |pending|))
        == Shl(FromBits(pending + more), 8 - |pending| - bits) < 0x100
  {
    hide Pow2, Shl, Shr, ToBits, FromBits, Or, Piece;
    var offset := |pending|;
    var rest := 8 - offset - bits;
    var more := ToBits(Shr(data, nbits - bits), bits);
    var l := FromBits(more);
    FromBitsBound(more);
    FromBitsBound(pending + more);
    FromBitsConcat(pending, more);
    if nbits >= 8 - offset {
      PieceOfMany(data, nbits, offset);
      Pow2Zero();
      assert Piece(data, nbits, offset) == l * Pow2(rest);
    } else {
      PieceOfFew(data, nbits, offset);
    }
    Pow2Add(bits, rest);
    Pow2Add(offset + bits, rest);
    Pow2Of8();
    Below(l, Pow2(bits), Pow2(rest));
    Below(FromBits(pending + more), Pow2(offset + bits), Pow2(rest));
    OrIsSum(FromBits(pending), 8 - offset, l * Pow2(rest));
    ShlIs(FromBits(pending), 8 - offset);
    ShlIs(FromBits(pending + more), rest);
    Distribute(FromBits(pending), Pow2(bits), l, Pow2(rest));
  }

  lemma Below(x: nat, a: nat, b: nat)
    requires x < a && b > 0
    ensures x * b < a * b
  {
  }

  lemma Distribute(p: nat, a: nat, l: nat, b: nat)
    ensures p * (a * b) + l * b == (p * a + l) * b
  {
  }

  // ---------- BitStreamWriter ----------

  class BitStreamWriter {
    var output: seq<Byte>
    var buffer: Byte
    var offset: nat
    /** All the bits written. */
    ghost var bits: seq<bool>

    /** The bits are those of the output and then `offset` high bits of the buffer, whose other bits are zero. */
    ghost predicate Holds()
      reads this
    {
      && offset <= 8 && |bits| == 8 * |output| + offset
      && bits[..8 * |output|] == BytesToBits(output)
      && buffer == Shl(FromBits(bits[8 * |output|..]), 8 - offset)
    }

    ghost predicate Valid()
      reads this
    {
      Holds() && offset < 8
    }

    constructor ()
      ensures Valid() && bits == [] && output == []
    {
      output, buffer, offset, bits := [], 0, 0, [];
      new;
      assert bits[..0] == BytesToBits([]);
      assert Shl(0, 8) == 0;
    }

    /** Writes the low bits of the data; false, an exception in the source, for a number of bits out of range. */
    method Write(data: nat, numBits: int) returns (ok: bool)
      requires Valid() && data < U64
      modifies this
      ensures Valid() && ok == (0 <= numBits <= 64)
      ensures bits == if ok then old(bits) + ToBits(data, numBits) else old(bits)
    {
      hide *;
      if numBits < 0 || numBits > 64 {
        return false;
      }
      var nbits: nat := numBits;
      while nbits > 0
        invariant 0 <= nbits <= 64 && Valid()
        invariant bits + ToBits(data, nbits) == old(bits) + ToBits(data, numBits)
      {
        ghost var before := bits;
        var count := WriteSome(data, nbits);
        SplitOff(before, data, nbits, count);
        nbits := nbits - count;
      }
      NoBits(data, bits);
      ok := true;
    }

    /** One round of the loop: as many of the leading bits as fit in the buffer, which is written when it is full. */
    method WriteSome(data: nat, nbits: nat) returns (count: nat)
      requires Valid() && 0 < nbits <= 64
      modifies this
      ensures Valid() && 0 < count <= nbits
      ensures bits == old(bits) + ToBits(Shr(data, nbits - count), count)
    {
      hide Shl, Shr, Or, FromBits, Piece, BytesToBits, ToBits, Valid;
      ValidIs();
      count := if 8 - offset < nbits then 8 - offset else nbits;
      ghost var pending := bits[8 * |output|..];
      ghost var more := ToBits(Shr(data, nbits - count), count);
      BufferStep(pending, data, nbits, count);
      assert (bits + more)[8 * |output|..] == pending + more;
      assert (bits + more)[..8 * |output|] == bits[..8 * |output|];
      buffer := Or(buffer, Piece(data, nbits, offset));
      offset := offset + count;
      bits := bits + more;
      ValidIs();
      if offset == 8 {
        Flush();
        assert bits + Zeros(0) == bits;
      }
    }

    lemma ValidIs()
      ensures Valid() <==> Holds() && offset < 8
    {
    }

    /** Writes what is in the buffer, padded with zeros to a whole byte. */
    method Flush()
      requires Holds()
      modifies this
      ensures Valid() && offset == 0
      ensures bits == if old(offset) == 0 then old(bits) else old(bits) + Zeros(8 - old(offset))
      ensures |output| == (|old(bits)| + 7) / 8 && bits == BytesToBits(output)
    {
      hide ToBits, FromBits, Shl, BytesToBits, Zeros;
      NothingPending();
      if offset == 0 {
        assert bits[..|bits|] == bits;
        return;
      }
      ghost var pending := bits[8 * |output|..];
      PaddedWord(pending, 8);
      BytesAppend(output, buffer);
      assert bits == bits[..8 * |output|] + pending;
      bits := bits + Zeros(8 - offset);
      assert bits == BytesToBits(output) + (pending + Zeros(8 - offset));
      output := output + [buffer];
      buffer := 0;
      offset := 0;
      assert bits[8 * |output|..] == [];
      assert bits[..8 * |output|] == bits;
    }
  }

  lemma NothingPending()
    ensures Shl(FromBits([]), 8) == 0
  {
    assert Shl(0, 8) == 0;
  }

  lemma NoBytes()
    ensures BytesToBits([]) == []
  {
  }

  lemma BytesAppend(output: seq<Byte>, b: Byte)
    ensures BytesToBits(output + [b]) == BytesToBits(output) + ToBits(b, 8)
  {
    hide ToBits;
    assert (output + [b])[..|output|] == output;
  }

  lemma SplitOff(before: seq<bool>, data: nat, nbits: nat, count: nat)
    requires count <= nbits
    ensures (before + ToBits(Shr(data, nbits - count), count)) + ToBits(data, nbits - count) == before + ToBits(data, nbits)
  {
    hide ToBits, Shr;
    ToBitsSplit(data, count, nbits - count);
  }

  lemma NoBits(data: nat, bits: seq<bool>)
    ensures bits + ToBits(data, 0) == bits
  {
  }

  lemma PadIs(pending: seq<bool>, k: nat)
    ensures FromBits(pending + Zeros(k)) == Shl(FromBits(pending), k)
  {
    hide FromBits, Zeros, Shl, Pow2;
    FromZeros(k);
    FromBitsConcat(pending, Zeros(k));
    assert |Zeros(k)| == k;
    ShlIs(FromBits(pending), k);
  }

  /** A word of pending bits and zeros. */
  lemma PaddedWord(pending: seq<bool>, n: nat)
    requires |pending| <= n
    ensures ToBits(Shl(FromBits(pending), n - |pending|), n) == pending + Zeros(n - |pending|)
  {
    hide *;
    PadIs(pending, n - |pending|);
    ToFromBits(pending + Zeros(n - |pending|));
  }

  // ---------- BitStreamReader ----------

  lemma {:induction false} BytesFront(bytes: seq<Byte>)
    requires bytes != []
    ensures BytesToBits(bytes) == ToBits(bytes[0], 8) + BytesToBits(bytes[1..])
  {
    hide ToBits, BytesToBits;
    var init, last := bytes[..|bytes| - 1], bytes[|bytes| - 1];
    assert bytes == init + [last];
    BytesAppend(init, last);
    if init == [] {
      NoBytes();
      assert bytes[1..] == [];
    } else {
      BytesFront(init);
      BytesAppend(init[1..], last);
      assert bytes[1..] == init[1..] + [last];
    }
  }

  lemma SliceOfBits(x: nat, offset: nat, bits: nat, n: nat)
    requires offset + bits <= n
    ensures ToBits(x, n)[offset..offset + bits] == ToBits(Shr(x, n - offset - bits), bits)
    ensures ToBits(x, n)[offset..] == ToBits(x, n - offset)
    ensures ToBits(x, n)[offset + bits..] == ToBits(x, n - offset - bits)
  {
    hide ToBits, Shr, Pow2;
    ToBitsSplit(x, offset, n - offset);
    ToBitsSplit(x, bits, n - offset - bits);
    ToBitsSplit(x, offset + bits, n - offset - bits);
    ShrIs(x, n - offset - bits);
  }

  /** The bits [offset, offset + bits) of a byte, as the reader takes them out. */
  lemma TakenBits(buffer: Byte, offset: nat, bits: nat)
    requires offset + bits <= 8
    ensures Shr(Shl(buffer, offset) % 0x100, 8 - bits) == FromBits(ToBits(buffer, 8)[offset..offset + bits]) < Pow2(bits)
  {
    hide ToBits, FromBits, Shl, Shr, Pow2;
    var rest := 8 - offset - bits;
    SliceOfBits(buffer, offset, bits, 8);
    FromToBits(Shr(buffer, rest), bits);
    FromBitsBound(ToBits(Shr(buffer, rest), bits));
    ShrIs(buffer, rest);
    ShlIs(buffer, offset);
    Pow2Of8();
    Pow2Add(offset, 8 - offset);
    ScaledDiv(buffer, Pow2(8 - offset), Pow2(offset));
    ShrIs(Shl(buffer, offset) % 0x100, 8 - bits);
    Pow2Add(offset, rest);
    ScaledDiv(buffer % Pow2(8 - offset), Pow2(rest), Pow2(offset));
    Pow2Add(rest, bits);
    TopOf(buffer, Pow2(rest), Pow2(bits));
  }

  /** Shifting the data and adding the next bits. */
  lemma DataStep(read: seq<bool>, more: seq<bool>)
    requires |read| + |more| <= 64
    ensures Or(Shl(FromBits(read), |more|) % U64, FromBits(more)) == FromBits(read + more) < U64
  {
    hide Or, Shl, FromBits, Pow2;
    FromBitsConcat(read, more);
    FromBitsBound(more);
    FromBitsBound(read + more);
    ShlIs(FromBits(read), |more|);
    Pow2Mono(|read| + |more|, 64);
    Pow2Of64();
    Multiple(Shl(FromBits(read), |more|), U64);
    OrIsSum(FromBits(read), |more|, FromBits(more));
  }

  class BitStreamReader {
    const input: seq<Byte>
    var position: nat
    var buffer: Byte
    var offset: nat

    ghost predicate Valid()
      reads this
    {
      position <= |input| && offset <= 8
    }

    /** The bits not yet returned. */
    ghost function Rest(): seq<bool>
      requires Valid()
      reads this
    {
      ToBits(buffer, 8)[offset..] + BytesToBits(input[position..])
    }

    constructor (input: seq<Byte>)
      ensures Valid() && this.input == input && Rest() == BytesToBits(input)
    {
      this.input, position, buffer, offset := input, 0, 0, 8;
      new;
      assert input[0..] == input;
      assert ToBits(buffer, 8)[8..] == [];
    }

    /** The next bits as a number; none, an exception in the source, when out of range or past the end of the stream. */
    method Read(numBits: int) returns (r: Option<nat>)
      requires Valid()
      modifies this
      ensures Valid()
      ensures numBits < 0 || numBits > 64 ==> r == None && Rest() == old(Rest())
      ensures 0 <= numBits <= 64 ==> (r.Some? <==> numBits <= |old(Rest())|)
      ensures r.Some? ==> r.value == FromBits(old(Rest())[..numBits]) && Rest() == old(Rest())[numBits..]
    {
      if numBits < 0 || numBits > 64 {
        return None;
      }
      hide *;
      var nbits: nat := numBits;
      r := Some(0);
      ghost var read: seq<bool> := [];
      NothingRead(Rest());
      while nbits > 0
        invariant 0 <= nbits <= 64 && Valid()
        invariant |read| + nbits == numBits && old(Rest()) == read + Rest() && r == Some(FromBits(read))
      {
        if offset == 8 {
          var more := NextByte();
          if !more {
            return None;
          }
        }
        ghost var before := Rest();
        var data, count := ReadSome(r.value, nbits, read);
        TakeFront(read, before, count);
        read := read + before[..count];
        nbits := nbits - count;
        r := Some(data);
      }
      assert old(Rest())[..numBits] == read && old(Rest())[numBits..] == Rest();
    }

    /** Reads the next byte into the buffer, unless there is none. */
    method NextByte() returns (more: bool)
      requires Valid() && offset == 8
      modifies this
      ensures Valid() && Rest() == old(Rest())
      ensures if more then offset == 0 else Rest() == []
    {
      hide ToBits, BytesToBits;
      assert ToBits(buffer, 8)[8..] == [];
      if position == |input| {
        assert input[position..] == [] && BytesToBits([]) == [] by { NoBytes(); }
        return false;
      }
      BytesFront(input[position..]);
      assert input[position..][1..] == input[position + 1..];
      buffer := input[position];
      position := position + 1;
      offset := 0;
      more := true;
    }

    /** One round of the loop: what is left of the buffer, or as much of it as is asked for. */
    method ReadSome(data: nat, nbits: nat, ghost read: seq<bool>) returns (after: nat, count: nat)
      requires Valid() && offset < 8 && 0 < nbits && |read| + nbits <= 64 && data == FromBits(read)
      modifies this
      ensures Valid() && 0 < count <= nbits && count <= |old(Rest())|
      ensures Rest() == old(Rest())[count..] && after == FromBits(read + old(Rest())[..count])
    {
      hide ToBits, FromBits, Shl, Shr, Or, BytesToBits;
      count := if 8 - offset < nbits then 8 - offset else nbits;
      ghost var more := ToBits(buffer, 8)[offset..offset + count];
      TakenBits(buffer, offset, count);
      DataStep(read, more);
      RestSplit(count);
      after := Or(Shl(data, count) % U64, Shr(Shl(buffer, offset) % 0x100, 8 - count));
      offset := offset + count;
    }

    lemma RestSplit(bits: nat)
      requires Valid() && offset + bits <= 8
      ensures Rest() == ToBits(buffer, 8)[offset..offset + bits] + (ToBits(buffer, 8)[offset + bits..] + BytesToBits(input[position..]))
      ensures Rest()[..bits] == ToBits(buffer, 8)[offset..offset + bits]
      ensures Rest()[bits..] == ToBits(buffer, 8)[offset + bits..] + BytesToBits(input[position..])
    {
      hide ToBits, BytesToBits;
      assert ToBits(buffer, 8)[offset..] == ToBits(buffer, 8)[offset..offset + bits] + ToBits(buffer, 8)[offset + bits..];
    }
  }

  lemma TakeFront(read: seq<bool>, before: seq<bool>, count: nat)
    requires count <= |before|
    ensures (read + before[..count]) + before[count..] == read + before
  {
  }

  lemma NothingRead(rest: seq<bool>)
    ensures [] + rest == rest && FromBits([]) == 0
  {
  }

  // ---------- writing a list of numbers and reading it back ----------

  datatype Item = Item(data: nat, nbits: nat)

  function Encoded(items: seq<Item>): seq<bool> {
    if items == [] then [] else Encoded(items[..|items| - 1]) + ToBits(items[|items| - 1].data, items[|items| - 1].nbits)
  }

  ghost predicate Widths(items: seq<Item>) {
    forall i :: 0 <= i < |items| ==> items[i].nbits <= 64 && items[i].data < U64
  }

  lemma EncodedStep(items: seq<Item>, i: nat)
    requires i < |items|
    ensures Encoded(items[..i + 1]) == Encoded(items[..i]) + ToBits(items[i].data, items[i].nbits)
  {
    assert items[..i + 1][..i] == items[..i];
  }

  lemma {:induction false} EncodedPrefix(items: seq<Item>, i: nat)
    requires i <= |items|
    ensures |Encoded(items[..i])| <= |Encoded(items)| && Encoded(items)[..|Encoded(items[..i])|] == Encoded(items[..i])
    decreases |items| - i
  {
    if i == |items| {
      assert items[..i] == items;
    } else {
      EncodedPrefix(items, i + 1);
      EncodedStep(items, i);
    }
  }

  /** Writes the list and flushes once. */
  method WriteAll(items: seq<Item>) returns (output: seq<Byte>)
    requires Widths(items)
    ensures |output| == (|Encoded(items)| + 7) / 8
    ensures BytesToBits(output) == Encoded(items) + Zeros(8 * |output| - |Encoded(items)|)
  {
    hide ToBits, BytesToBits, Zeros;
    var writer := new BitStreamWriter();
    var i := 0;
    while i < |items|
      invariant 0 <= i <= |items| && writer.Valid() && writer.bits == Encoded(items[..i])
    {
      EncodedStep(items, i);
      var ok := writer.Write(items[i].data, items[i].nbits);
      i := i + 1;
    }
    assert items[..i] == items;
    writer.Flush();
    output := writer.output;
    assert |writer.bits| == 8 * |output|;
    if |Encoded(items)| == 8 * |output| { assert Encoded(items) + Zeros(0) == Encoded(items); }
  }

  /** Reads numbers of the given widths. */
  method ReadAll(input: seq<Byte>, widths: seq<nat>, ghost items: seq<Item>) returns (data: seq<nat>)
    requires Widths(items) && |widths| == |items| && forall i :: 0 <= i < |items| ==> widths[i] == items[i].nbits
    requires |Encoded(items)| <= |BytesToBits(input)| && BytesToBits(input)[..|Encoded(items)|] == Encoded(items)
    ensures |data| == |items|
    ensures forall i :: 0 <= i < |items| ==> Pow2(items[i].nbits) > 0 && data[i] == items[i].data % Pow2(items[i].nbits)
  {
    hide *;
    var reader := new BitStreamReader(input);
    ghost var all := BytesToBits(input);
    data := [];
    var i := 0;
    EncodedNothing();
    assert items[..0] == [];
    NoneRead(items);
    while i < |widths|
      invariant 0 <= i <= |widths| == |items| && |data| == i && reader.Valid()
      invariant |Encoded(items[..i])| <= |all| && reader.Rest() == all[|Encoded(items[..i])|..]
      invariant ReadBack(items, data)
    {
      NextItem(items, i, all);
      WidthFits(items, i);
      var r := reader.Read(widths[i]);
      ReadOne(items, data);
      data := data + [r.value];
      i := i + 1;
    }
    AllRead(items, data);
  }

  /** The numbers read so far. */
  ghost predicate ReadBack(items: seq<Item>, data: seq<nat>) {
    |data| <= |items| && forall j :: 0 <= j < |data| ==> data[j] == items[j].data % Pow2(items[j].nbits)
  }

  lemma NoneRead(items: seq<Item>)
    ensures ReadBack(items, [])
  {
  }

  lemma WidthFits(items: seq<Item>, i: nat)
    requires Widths(items) && i < |items|
    ensures items[i].nbits <= 64
  {
  }

  lemma ReadOne(items: seq<Item>, data: seq<nat>)
    requires ReadBack(items, data) && |data| < |items|
    ensures var item := items[|data|]; ReadBack(items, data + [FromBits(ToBits(item.data, item.nbits))])
  {
    hide ToBits, FromBits, Pow2;
    FromToBits(items[|data|].data, items[|data|].nbits);
  }

  lemma AllRead(items: seq<Item>, data: seq<nat>)
    requires ReadBack(items, data) && |data| == |items|
    ensures forall i :: 0 <= i < |items| ==> Pow2(items[i].nbits) > 0 && data[i] == items[i].data % Pow2(items[i].nbits)
  {
    hide Pow2;
  }

  /** Where the i-th number lies in bits that begin with all of them. */
  lemma NextItem(items: seq<Item>, i: nat, all: seq<bool>)
    requires i < |items| && |Encoded(items)| <= |all| && all[..|Encoded(items)|] == Encoded(items)
    ensures var start, after := |Encoded(items[..i])|, |Encoded(items[..i + 1])|;
      && start + items[i].nbits == after <= |all|
      && all[start..][..items[i].nbits] == ToBits(items[i].data, items[i].nbits)
      && all[start..][items[i].nbits..] == all[after..]
  {
    hide ToBits, Encoded;
    var start := |Encoded(items[..i])|;
    EncodedStep(items, i);
    EncodedPrefix(items, i + 1);
    assert all[start..][..items[i].nbits] == all[..|Encoded(items)|][..start + items[i].nbits][start..];
  }

  lemma EncodedNothing()
    ensures Encoded([]) == []
  {
  }

  /**
    Every list of numbers, written with widths from 0 to 64 bits and read back with the same widths, comes back
    modulo those widths.
   */
  method WriteThenRead(items: seq<Item>, widths: seq<nat>) returns (data: seq<nat>)
    requires Widths(items) && |widths| == |items| && forall i :: 0 <= i < |items| ==> widths[i] == items[i].nbits
    ensures |data| == |items|
    ensures forall i :: 0 <= i < |items| ==> Pow2(items[i].nbits) > 0 && data[i] == items[i].data % Pow2(items[i].nbits)
  {
    hide *;
    var output := WriteAll(items);
    assert (Encoded(items) + Zeros(8 * |output| - |Encoded(items)|))[..|Encoded(items)|] == Encoded(items);
    data := ReadAll(output, widths, items);
  }
}
