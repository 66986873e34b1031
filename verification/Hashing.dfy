/** Streaming hashes: CSHA256 and BLAKE2b, with the compression of one block left open. */
module Hashing {
  import opened Bits
  import opened Arith
  import opened ByteStrings

  /** memcpy */
  method CopyInto(buf: array<Byte>, data: seq<Byte>, from: nat, at: nat, n: nat)
    requires from + n <= |data| && at + n <= buf.Length
    modifies buf
    ensures buf[..] == old(buf[..at]) + data[from..from + n] + old(buf[at + n..])
  {
    forall i | 0 <= i < n {
      buf[at + i] := data[from + i];
    }
  }

  // ---------- SHA-256 ----------

  /** The state after the first k blocks of 64 bytes. */
  function Digest<H>(transform: (H, seq<Byte>) -> H, start: H, m: seq<Byte>, k: nat): H
    requires 64 * k <= |m|
  {
    if k == 0 then start else transform(Digest(transform, start, m, k - 1), m[64 * (k - 1)..64 * k])
  }

  lemma {:induction false} SameDigest<H>(transform: (H, seq<Byte>) -> H, start: H, m: seq<Byte>, n: seq<Byte>, k: nat)
    requires 64 * k <= |m| && 64 * k <= |n| && m[..64 * k] == n[..64 * k]
    ensures Digest(transform, start, m, k) == Digest(transform, start, n, k)
  {
    if k > 0 {
      assert m[..64 * k][..64 * (k - 1)] == m[..64 * (k - 1)] && n[..64 * k][..64 * (k - 1)] == n[..64 * (k - 1)];
      SameDigest(transform, start, m, n, k - 1);
      assert m[..64 * k][64 * (k - 1)..] == m[64 * (k - 1)..64 * k] && n[..64 * k][64 * (k - 1)..] == n[64 * (k - 1)..64 * k];
    }
  }

  /** Section 5.1.1 of FIPS 180-4: a one bit, the fewest zeros that make whole blocks, and the length in bits. */
  function Padded(m: seq<Byte>): (p: seq<Byte>)
    ensures |p| % 64 == 0 && |m| + 9 <= |p| < |m| + 73
  {
    var zeros := (119 - |m| % 64) % 64;
    assert |m| == 64 * (|m| / 64) + |m| % 64;
    m + [0x80] + Zeros(zeros) + BigEndian(8 * |m| % U64, 8)
  }

  ghost function Sha256Of<H>(transform: (H, seq<Byte>) -> H, start: H, m: seq<Byte>): H {
    Digest(transform, start, Padded(m), |Padded(m)| / 64)
  }

  /**
    The hash, spelled out: the message, a byte 0x80, the fewest zeros that make whole blocks, and the number of bits in
    eight bytes, big end first; compressed block after block, from the start.
   */
  lemma Sha256Is<H>(transform: (H, seq<Byte>) -> H, start: H, m: seq<Byte>) returns (p: seq<Byte>, bits: seq<Byte>, states: seq<H>)
    ensures |p| % 64 == 0 && |m| + 9 <= |p| < |m| + 73
    ensures p[..|m|] == m && p[|m|] == 0x80 && forall i :: |m| < i < |p| - 8 ==> p[i] == 0
    ensures p[|p| - 8..] == bits && forall i: nat :: i < 8 ==> bits[i] == (8 * |m| % U64) / Pow256(7 - i) % 0x100
    ensures 64 * (|states| - 1) == |p| && states[0] == start && states[|states| - 1] == Sha256Of(transform, start, m)
    ensures forall i :: 0 <= i < |states| - 1 ==> states[i + 1] == transform(states[i], p[64 * i..64 * i + 64])
  {
    p := Padded(m);
    bits := BigEndian(8 * |m| % U64, 8);
    forall i: nat | i < 8 ensures bits[i] == (8 * |m| % U64) / Pow256(7 - i) % 0x100 {
      BigEndianAt(8 * |m| % U64, 8, i);
    }
    states := DigestStates(transform, start, p, |p| / 64);
  }

  lemma {:induction false} DigestStates<H>(transform: (H, seq<Byte>) -> H, start: H, m: seq<Byte>, k: nat) returns (states: seq<H>)
    requires 64 * k <= |m|
    ensures |states| == k + 1 && states[0] == start && states[k] == Digest(transform, start, m, k)
    ensures forall i :: 0 <= i < k ==> states[i + 1] == transform(states[i], m[64 * i..64 * i + 64])
  {
    if k == 0 {
      states := [start];
    } else {
      var before := DigestStates(transform, start, m, k - 1);
      states := before + [Digest(transform, start, m, k)];
    }
  }

  class CSHA256<H> {
    const transform: (H, seq<Byte>) -> H
    const start: H
    var s: H
    const buf: array<Byte>
    var bytes: nat
    /** All the data written. */
    ghost var message: seq<Byte>

    /** Of a message, k blocks and r more bytes have been taken. */
    ghost predicate Holds(whole: seq<Byte>, k: nat, r: nat)
      reads this`s, this`bytes, buf
    {
      && buf.Length == 64 && r < 64 && bytes == 64 * k + r <= |whole|
      && s == Digest(transform, start, whole, k)
      && buf[..r] == whole[64 * k..64 * k + r]
    }

    ghost predicate Valid()
      reads this, buf
    {
      bytes == |message| && Taken(message)
    }

    constructor (transform: (H, seq<Byte>) -> H, start: H)
      ensures Valid() && message == [] && this.transform == transform && this.start == start && fresh(buf)
    {
      this.transform, this.start, s, bytes, message := transform, start, start, 0, [];
      buf := new Byte[64](_ => 0);
    }

    /** Whole blocks of the data, from pos on. */
    method Transform(data: seq<Byte>, pos: nat, blocks: nat, ghost whole: seq<Byte>, ghost k: nat)
      requires pos + 64 * blocks <= |data| && 64 * (k + blocks) <= |whole|
      requires data[pos..pos + 64 * blocks] == whole[64 * k..64 * (k + blocks)]
      requires s == Digest(transform, start, whole, k)
      modifies this`s
      ensures s == Digest(transform, start, whole, k + blocks)
    {
      for i := 0 to blocks
        invariant s == Digest(transform, start, whole, k + i)
      {
        SubSlice(data, pos, pos + 64 * blocks, 64 * i, 64 * i + 64);
        SubSlice(whole, 64 * k, 64 * (k + blocks), 64 * i, 64 * i + 64);
        s := transform(s, data[pos + 64 * i..pos + 64 * i + 64]);
      }
    }

    ghost predicate Taken(whole: seq<Byte>)
      reads this`s, this`bytes, buf
    {
      Holds(whole, bytes / 64, bytes % 64)
    }

    lemma IsTaken(whole: seq<Byte>, k: nat, r: nat)
      requires Holds(whole, k, r)
      ensures bytes / 64 == k && bytes % 64 == r && Taken(whole)
    {
      DivUnique(bytes, 64, k, r);
    }

    method Write(data: seq<Byte>)
      requires Valid()
      modifies this`s, this`bytes, this`message, buf
      ensures Valid() && message == old(message) + data
    {
      ghost var whole := message + data;
      SameDigest(transform, start, message, whole, bytes / 64);
      assert Taken(whole) && whole[bytes..] == data;
      hide Taken;
      var pos := CompleteBlock(data, whole);
      pos := TakeBlocks(data, pos, whole);
      TakeRest(data, pos, whole);
      message := whole;
      assert Taken(whole);
      TakenIsValid();
    }

    lemma TakenIsValid()
      requires Taken(message) && bytes == |message|
      ensures Valid()
    {
    }

    /** If there is something in the buffer and enough data, fills it and processes it. */
    method CompleteBlock(data: seq<Byte>, ghost whole: seq<Byte>) returns (pos: nat)
      requires Taken(whole) && bytes <= |whole| && whole[bytes..] == data
      modifies this`s, this`bytes, buf
      ensures Taken(whole) && pos <= |data| && bytes == old(bytes) + pos <= |whole| && whole[bytes..] == data[pos..]
      ensures bytes % 64 == 0 || bytes % 64 + (|data| - pos) < 64
    {
      hide Digest;
      var bufsize := bytes % 64;
      ghost var k := bytes / 64;
      pos := 0;
      if bufsize > 0 && bufsize + |data| >= 64 {
        CopyInto(buf, data, 0, bufsize, 64 - bufsize);
        SubSlice(whole, bytes, |whole|, 0, 64 - bufsize);
        assert buf[..] == whole[64 * k..bytes] + whole[bytes..64 * k + 64] == whole[64 * k..64 * k + 64];
        bytes := bytes + (64 - bufsize);
        pos := 64 - bufsize;
        assert buf[..][0..64] == buf[..];
        Transform(buf[..], 0, 1, whole, k);
        IsTaken(whole, k + 1, 0);
      }
    }

    /** Processes the whole blocks that follow. */
    method TakeBlocks(data: seq<Byte>, pos: nat, ghost whole: seq<Byte>) returns (next: nat)
      requires Taken(whole) && pos <= |data| && bytes <= |whole| && whole[bytes..] == data[pos..]
      requires bytes % 64 == 0 || bytes % 64 + (|data| - pos) < 64
      modifies this`s, this`bytes
      ensures Taken(whole) && pos <= next <= |data| && bytes == old(bytes) + (next - pos) <= |whole|
      ensures whole[bytes..] == data[next..] && bytes % 64 + (|data| - next) < 64
    {
      hide Digest;
      ghost var k := bytes / 64;
      next := pos;
      if |data| - pos >= 64 {
        var blocks := (|data| - pos) / 64;
        SubSlice(whole, bytes, |whole|, 0, 64 * blocks);
        SubSlice(data, pos, |data|, 0, 64 * blocks);
        assert data[pos..|data|] == data[pos..] && whole[bytes..|whole|] == whole[bytes..];
        Transform(data, pos, blocks, whole, k);
        next := pos + 64 * blocks;
        bytes := bytes + 64 * blocks;
        IsTaken(whole, k + blocks, 0);
      }
    }

    /** Fills the buffer with what remains. */
    method TakeRest(data: seq<Byte>, pos: nat, ghost whole: seq<Byte>)
      requires Taken(whole) && pos <= |data| && bytes <= |whole| && whole[bytes..] == data[pos..]
      requires bytes % 64 + (|data| - pos) < 64
      modifies this`bytes, buf
      ensures Taken(whole) && bytes == |whole|
    {
      hide Digest;
      var bufsize := bytes % 64;
      ghost var k := bytes / 64;
      if |data| > pos {
        CopyInto(buf, data, pos, bufsize, |data| - pos);
        assert buf[..bufsize + (|data| - pos)] == whole[64 * k..bytes] + whole[bytes..];
        bytes := bytes + (|data| - pos);
        IsTaken(whole, k, bufsize + (|data| - pos));
      }
    }

    /** The state is then the hash of all that was written. */
    method Finalize() returns (hash: H)
      requires Valid()
      modifies this`s, this`bytes, this`message, buf
      ensures hash == Sha256Of(transform, start, old(message))
    {
      hide Digest, Holds, BigEndian;
      ghost var m := message;
      var sizedesc := BigEndian(8 * bytes % U64, 8);
      Write([0x80] + Zeros((119 - bytes % 64) % 64));
      Write(sizedesc);
      assert message == Padded(m);
      FinalState();
      hash := s;
    }

    lemma FinalState()
      requires Valid()
      ensures s == Digest(transform, start, message, |message| / 64)
    {
    }
  }

  lemma SubSlice<T>(s: seq<T>, a: nat, b: nat, i: nat, j: nat)
    requires a <= b <= |s| && i <= j <= b - a
    ensures s[a..b][i..j] == s[a + i..a + j]
  {
    forall k | 0 <= k < j - i ensures s[a..b][i..j][k] == s[a + i..a + j][k] {}
  }

  /** The hash does not depend on the pieces in which the message is written. */
  method Sha256Pieces<H>(transform: (H, seq<Byte>) -> H, start: H, pieces: seq<seq<Byte>>) returns (hash: H)
    ensures hash == Sha256Of(transform, start, Concat(pieces))
  {
    var hasher := new CSHA256(transform, start);
    for i := 0 to |pieces|
      invariant hasher.Valid() && hasher.message == Concat(pieces[..i])
      invariant hasher.transform == transform && hasher.start == start && fresh(hasher) && fresh(hasher.buf)
    {
      ConcatStep(pieces, i);
      hasher.Write(pieces[i]);
    }
    assert pieces[..|pieces|] == pieces;
    hash := hasher.Finalize();
  }

  // ---------- BLAKE2b ----------

  const U128: nat := 0x1_0000_0000_0000_0000_0000_0000_0000_0000

  /** The compression function of section 3.2 of RFC 7693: state, block, offset counter, and whether it is the last. */
  type Compress<!H> = (H, seq<Byte>, nat, bool) -> H

  /** The state after the first k blocks of 128 bytes, none of them the last. */
  function Chain<H>(compress: Compress<H>, start: H, m: seq<Byte>, k: nat): H
    requires 128 * k <= |m|
  {
    if k == 0 then start
    else compress(Chain(compress, start, m, k - 1), m[128 * (k - 1)..128 * k], 128 * k % U128, false)
  }

  lemma {:induction false} SameChain<H>(compress: Compress<H>, start: H, m: seq<Byte>, n: seq<Byte>, k: nat)
    requires 128 * k <= |m| && 128 * k <= |n| && m[..128 * k] == n[..128 * k]
    ensures Chain(compress, start, m, k) == Chain(compress, start, n, k)
  {
    if k > 0 {
      assert m[..128 * k][..128 * (k - 1)] == m[..128 * (k - 1)] && n[..128 * k][..128 * (k - 1)] == n[..128 * (k - 1)];
      SameChain(compress, start, m, n, k - 1);
      assert m[..128 * k][128 * (k - 1)..] == m[128 * (k - 1)..128 * k] && n[..128 * k][128 * (k - 1)..] == n[128 * (k - 1)..128 * k];
    }
  }

  /** The blocks before the last one, which is never empty unless the message is. */
  function Before(n: nat): (k: nat)
    ensures 128 * k <= n <= 128 * k + 128 && (n > 0 ==> 128 * k < n)
  {
    if n == 0 then 0 else (n - 1) / 128
  }

  lemma BeforeIs(n: nat, k: nat)
    requires 128 * k < n <= 128 * k + 128 || n == k == 0
    ensures Before(n) == k
  {
  }

  /** Section 3.3 of RFC 7693. */
  ghost function Blake2bOf<H>(compress: Compress<H>, start: H, m: seq<Byte>): H {
    var k := Before(|m|);
    compress(Chain(compress, start, m, k), m[128 * k..] + Zeros(128 * k + 128 - |m|), |m| % U128, true)
  }

  /**
    The hash, spelled out: k whole blocks before the last one, compressed with the number of bytes up to their end, and
    the last one, filled with zeros, with the number of all bytes and the flag.
   */
  lemma Blake2bIs<H>(compress: Compress<H>, start: H, m: seq<Byte>) returns (k: nat, states: seq<H>)
    ensures 128 * k <= |m| <= 128 * k + 128 && (|m| > 0 ==> 128 * k < |m|)
    ensures |states| == k + 1 && states[0] == start
    ensures forall i :: 0 <= i < k ==>
              states[i + 1] == compress(states[i], m[128 * i..128 * i + 128], 128 * (i + 1) % U128, false)
    ensures Blake2bOf(compress, start, m)
         == compress(states[k], m[128 * k..] + seq(128 * k + 128 - |m|, _ => 0), |m| % U128, true)
  {
    k := Before(|m|);
    states := ChainStates(compress, start, m, k);
  }

  lemma {:induction false} ChainStates<H>(compress: Compress<H>, start: H, m: seq<Byte>, k: nat) returns (states: seq<H>)
    requires 128 * k <= |m|
    ensures |states| == k + 1 && states[0] == start && states[k] == Chain(compress, start, m, k)
    ensures forall i :: 0 <= i < k ==>
              states[i + 1] == compress(states[i], m[128 * i..128 * i + 128], 128 * (i + 1) % U128, false)
  {
    if k == 0 {
      states := [start];
    } else {
      var before := ChainStates(compress, start, m, k - 1);
      states := before + [Chain(compress, start, m, k)];
    }
  }

  /** Adding to a counter of two words. */
  lemma CounterStep(low: nat, high: nat, n: nat, inc: nat)
    requires low < U64 && high < U64 && low + U64 * high == n % U128 && inc < U64
    ensures var l := (low + inc) % U64;
      var h := (high + if l < inc then 1 else 0) % U64;
      l + U64 * h == (n + inc) % U128
  {
    var sum := low + inc;
    DivUnique(sum, U64, if sum < U64 then 0 else 1, if sum < U64 then sum else sum - U64);
    var l := sum % U64;
    var up := high + if l < inc then 1 else 0;
    DivUnique(up, U64, if up < U64 then 0 else 1, if up < U64 then up else up - U64);
    var h := up % U64;
    assert n == U128 * (n / U128) + n % U128;
    assert l < inc <==> sum >= U64;
    DivUnique(n + inc, U128, n / U128 + (if up < U64 then 0 else 1), l + U64 * h);
  }

  class Blake2b<H(0)> {
    const compress: Compress<H>
    const start: H
    var h: H
    var t0: nat
    var t1: nat
    var lastBlock: bool
    const buf: array<Byte>
    var buflen: nat
    /** All the data given. */
    ghost var message: seq<Byte>

    /** Of a message, k blocks have been compressed, and the next r bytes are in the buffer. */
    ghost predicate Holds(whole: seq<Byte>, k: nat, r: nat)
      reads this`h, this`t0, this`t1, this`buflen, buf
    {
      && buf.Length == 128 && buflen == r <= 128 && 128 * k + r <= |whole|
      && t0 < U64 && t1 < U64 && t0 + U64 * t1 == 128 * k % U128
      && h == Chain(compress, start, whole, k)
      && buf[..r] == whole[128 * k..128 * k + r]
    }

    ghost predicate Valid()
      reads this, buf
    {
      !lastBlock && Before(|message|) * 128 + buflen == |message| && Holds(message, Before(|message|), buflen)
    }

    constructor (compress: Compress<H>, start: H)
      ensures Valid() && message == [] && this.compress == compress && this.start == start && fresh(buf)
    {
      this.compress, this.start, h, t0, t1, lastBlock, buflen, message := compress, start, start, 0, 0, false, 0, [];
      buf := new Byte[128](_ => 0);
    }

    method IncrementCounter(inc: nat, ghost n: nat)
      requires t0 < U64 && t1 < U64 && t0 + U64 * t1 == n % U128 && inc < U64
      modifies this`t0, this`t1
      ensures t0 < U64 && t1 < U64 && t0 + U64 * t1 == (n + inc) % U128
    {
      CounterStep(t0, t1, n, inc);
      t0 := (t0 + inc) % U64;
      t1 := (t1 + if t0 < inc then 1 else 0) % U64;
    }

    /** Keeps the last block, even a full one, in the buffer: it may be the message's last. */
    method Update(data: seq<Byte>)
      requires Valid()
      modifies this`h, this`t0, this`t1, this`buflen, this`message, buf
      ensures Valid() && message == old(message) + data
    {
      ghost var whole := message + data;
      ghost var k: nat := Before(|message|);
      SameChain(compress, start, message, whole, k);
      assert Holds(whole, k, buflen) && whole[128 * k + buflen..] == data;
      hide Holds;
      if |data| > 0 {
        var pos;
        pos, k := TakeBlocks(data, whole, k);
        Keep(data, pos, whole, k);
        BeforeIs(|whole|, k);
      } else {
        assert whole == message;
      }
      message := whole;
    }

    /** Compresses the buffer and what follows as long as more than one block remains. */
    method TakeBlocks(data: seq<Byte>, ghost whole: seq<Byte>, ghost k: nat) returns (pos: nat, ghost more: nat)
      requires Holds(whole, k, buflen) && whole[128 * k + buflen..] == data && |data| > 0
      modifies this`h, this`t0, this`t1, this`buflen, buf
      ensures pos < |data| && Holds(whole, more, buflen) && whole[128 * more + buflen..] == data[pos..]
      ensures buflen + (|data| - pos) <= 128
    {
      hide Chain;
      pos, more := 0, k;
      if |data| > 128 - buflen {
        pos := 128 - buflen;
        CompressBuffer(data, whole, k);
        more := k + 1;
        while |data| - pos > 128
          invariant pos < |data| && buflen == 0 && Holds(whole, more, 0) && whole[128 * more..] == data[pos..]
        {
          CompressBlock(data, pos, whole, more);
          pos := pos + 128;
          more := more + 1;
        }
      }
    }

    /** Fills the buffer and compresses it. */
    method CompressBuffer(data: seq<Byte>, ghost whole: seq<Byte>, ghost k: nat)
      requires Holds(whole, k, buflen) && whole[128 * k + buflen..] == data && |data| > 128 - buflen
      modifies this`h, this`t0, this`t1, this`buflen, buf
      ensures Holds(whole, k + 1, 0) && whole[128 * (k + 1)..] == data[128 - old(buflen)..]
    {
      var left := buflen;
      var fill := 128 - left;
      buflen := 0;
      CopyInto(buf, data, 0, left, fill);
      SubSlice(whole, 128 * k + left, |whole|, 0, fill);
      assert buf[..] == whole[128 * k..128 * k + left] + whole[128 * k + left..128 * k + 128] == whole[128 * k..128 * k + 128];
      IncrementCounter(128, 128 * k);
      h := compress(h, buf[..], t0 + U64 * t1, false);
    }

    method CompressBlock(data: seq<Byte>, pos: nat, ghost whole: seq<Byte>, ghost k: nat)
      requires Holds(whole, k, 0) && pos + 128 < |data| && whole[128 * k..] == data[pos..]
      modifies this`h, this`t0, this`t1
      ensures Holds(whole, k + 1, 0) && whole[128 * (k + 1)..] == data[pos + 128..]
    {
      IncrementCounter(128, 128 * k);
      SubSlice(whole, 128 * k, |whole|, 0, 128);
      SubSlice(data, pos, |data|, 0, 128);
      assert data[pos..|data|] == data[pos..] && whole[128 * k..|whole|] == whole[128 * k..];
      h := compress(h, data[pos..pos + 128], t0 + U64 * t1, false);
    }

    /** Adds what remains to the buffer. */
    method Keep(data: seq<Byte>, pos: nat, ghost whole: seq<Byte>, ghost k: nat)
      requires Holds(whole, k, buflen) && pos <= |data| && buflen + (|data| - pos) <= 128
      requires whole[128 * k + buflen..] == data[pos..]
      modifies this`buflen, buf
      ensures buflen == old(buflen) + (|data| - pos) && Holds(whole, k, buflen) && 128 * k + buflen == |whole|
    {
      CopyInto(buf, data, pos, buflen, |data| - pos);
      assert buf[..buflen + (|data| - pos)] == whole[128 * k..128 * k + buflen] + whole[128 * k + buflen..];
      buflen := buflen + (|data| - pos);
    }

    /** The state is then the hash of all that was given; a second call fails. */
    method Final() returns (ok: bool)
      requires lastBlock || Valid()
      modifies this`h, this`t0, this`t1, this`lastBlock, buf
      ensures ok == !old(lastBlock) && lastBlock
      ensures ok ==> h == Blake2bOf(compress, start, message)
      ensures !ok ==> h == old(h)
    {
      if lastBlock {
        return false;
      }
      hide Chain;
      ghost var k: nat := Before(|message|);
      LastBlock(buf[..buflen]);
      IncrementCounter(buflen, 128 * k);
      lastBlock := true;
      CopyInto(buf, Zeros(128 - buflen), 0, buflen, 128 - buflen);
      assert buf[..] == message[128 * k..] + Zeros(128 - buflen);
      h := compress(h, buf[..], t0 + U64 * t1, true);
      ok := true;
    }

    lemma LastBlock(kept: seq<Byte>)
      requires Valid() && kept == buf[..buflen]
      ensures kept == message[128 * Before(|message|)..] && 128 * Before(|message|) + 128 - |message| == 128 - buflen
    {
      var k := Before(|message|);
      assert message[128 * k..128 * k + buflen] == message[128 * k..];
    }
  }

  /** The hash does not depend on the pieces in which the message is given. */
  method Blake2bPieces<H(0)>(compress: Compress<H>, start: H, pieces: seq<seq<Byte>>) returns (hash: H)
    ensures hash == Blake2bOf(compress, start, Concat(pieces))
  {
    var hasher := new Blake2b(compress, start);
    for i := 0 to |pieces|
      invariant hasher.Valid() && hasher.message == Concat(pieces[..i])
      invariant hasher.compress == compress && hasher.start == start && fresh(hasher) && fresh(hasher.buf)
    {
      ConcatStep(pieces, i);
      hasher.Update(pieces[i]);
    }
    assert pieces[..|pieces|] == pieces;
    var ok := hasher.Final();
    hash := hasher.h;
  }

  const BLAKE2B_KEYBYTES := 64

  /** The whole hash, with or without a key; -1 in the source for a key that is too long. A key is a block of its own. */
  method Blake2bHash<H(0)>(compress: Compress<H>, start: H, data: seq<Byte>, key: seq<Byte>) returns (ok: bool, hash: H)
    ensures ok <==> |key| <= BLAKE2B_KEYBYTES
    ensures ok ==> hash == Blake2bOf(compress, start, if key == [] then data else key + Zeros(128 - |key|) + data)
  {
    hash := start;
    if |key| > BLAKE2B_KEYBYTES {
      return false, hash;
    }
    var hasher := new Blake2b(compress, start);
    if |key| > 0 {
      hasher.Update(key + Zeros(128 - |key|));
      assert hasher.message == key + Zeros(128 - |key|);
    }
    hasher.Update(data);
    assert hasher.message == if key == [] then data else key + Zeros(128 - |key|) + data;
    ok := hasher.Final();
    hash := hasher.h;
  }
}
