/** CBufferedFile: reading a file through a ring buffer, with some bytes kept for going back. */
module BufferedFiles {
  import opened Bits
  import opened Arith

  /** What a call that may throw ends with. */
  datatype Outcome<T> = Returned(value: T) | Thrown

  // ---------- slots of the ring ----------

  function Slot(i: nat, n: nat): (slot: nat)
    requires n > 0
    ensures slot < n
  {
    i % n
  }

  lemma SlotBelow(s: nat, k: nat, n: nat)
    requires k < n && k <= s
    ensures Slot(s - k, n) == if k <= Slot(s, n) then Slot(s, n) - k else n + Slot(s, n) - k
  {
    var q, p := s / n, s % n;
    assert s == n * q + p;
    if k <= p {
      DivUnique(s - k, n, q, p - k);
    } else {
      assert n * q == n * (q - 1) + n;
      DivUnique(s - k, n, q - 1, n + p - k);
    }
  }

  lemma SlotAbove(s: nat, k: nat, n: nat)
    requires n > 0 && Slot(s, n) + k < n
    ensures Slot(s + k, n) == Slot(s, n) + k
  {
    DivUnique(s + k, n, s / n, s % n + k);
  }

  /** The buffer holds the last bytes of the file before end, each in its slot. */
  ghost predicate Window(buffer: seq<Byte>, bytes: seq<Byte>, end: nat)
    requires |buffer| > 0 && end <= |bytes|
  {
    forall i :: 0 <= i < end && end - |buffer| <= i ==> buffer[Slot(i, |buffer|)] == bytes[i]
  }

  /** Copying the next bytes of the file over the oldest ones. */
  lemma WindowMoves(buffer: seq<Byte>, bytes: seq<Byte>, end: nat, count: nat)
    requires |buffer| > 0 && end + count <= |bytes| && Slot(end, |buffer|) + count <= |buffer| && Window(buffer, bytes, end)
    ensures var at := Slot(end, |buffer|);
      Window(buffer[..at] + bytes[end..end + count] + buffer[at + count..], bytes, end + count)
  {
    hide Slot;
    var n, at := |buffer|, Slot(end, |buffer|);
    var after := buffer[..at] + bytes[end..end + count] + buffer[at + count..];
    if count == 0 {
      assert after == buffer;
      return;
    }
    forall i | 0 <= i < end + count && end + count - n <= i
      ensures after[Slot(i, n)] == bytes[i]
    {
      if i < end {
        SlotBelow(end, end - i, n);
        assert buffer[Slot(i, n)] == bytes[i];
      } else {
        SlotAbove(end, i - end, n);
      }
    }
  }

  /** A run of slots that does not wrap holds a run of the file. */
  lemma WindowRun(buffer: seq<Byte>, bytes: seq<Byte>, end: nat, from: nat, count: nat)
    requires |buffer| > 0 && end <= |bytes| && Window(buffer, bytes, end)
    requires end <= from + |buffer| && from + count <= end && Slot(from, |buffer|) + count <= |buffer|
    ensures buffer[Slot(from, |buffer|)..Slot(from, |buffer|) + count] == bytes[from..from + count]
  {
    hide Slot;
    var at := Slot(from, |buffer|);
    var run := buffer[at..at + count];
    forall k | 0 <= k < count
      ensures run[k] == bytes[from + k]
    {
      SlotAbove(from, k, |buffer|);
      assert buffer[Slot(from + k, |buffer|)] == bytes[from + k];
    }
  }

  // ---------- the file ----------

  /** A file read from the start. How many bytes its calls to fread deliver at most is any sequence of numbers. */
  class File {
    const bytes: seq<Byte>
    const deliver: nat -> nat
    var pos: nat
    var calls: nat

    constructor (bytes: seq<Byte>, deliver: nat -> nat)
      ensures this.bytes == bytes && this.deliver == deliver && pos == 0 && calls == 0
    {
      this.bytes, this.deliver, pos, calls := bytes, deliver, 0, 0;
    }

    /** How many bytes the next call to fread delivers when asked for n. */
    function Available(n: nat): (count: nat)
      requires pos <= |bytes|
      reads this
      ensures count <= n && pos + count <= |bytes|
    {
      Least(n, Least(|bytes| - pos, deliver(calls)))
    }

    /** Delivers up to n bytes, or none at the end of the file or when reading fails. */
    method Fread(dst: array<Byte>, at: nat, n: nat) returns (count: nat)
      requires at + n <= dst.Length && pos <= |bytes|
      modifies this, dst
      ensures count == old(Available(n)) && pos == old(pos) + count <= |bytes|
      ensures dst[..] == old(dst[..at]) + bytes[old(pos)..pos] + old(dst[at + count..])
    {
      count := Available(n);
      forall k | 0 <= k < count {
        dst[at + k] := bytes[pos + k];
      }
      pos := pos + count;
      calls := calls + 1;
    }
  }

  function Least(a: nat, b: nat): nat {
    if a < b then a else b
  }

  // ---------- going back ----------

  /** Where SetPos ends up; the sums and differences are those of uint64_t. */
  function Landing(target: nat, rewind: nat, srcPos: nat): nat {
    if (target + rewind) % U64 < srcPos then (srcPos - rewind) % U64
    else if target > srcPos then srcPos
    else target
  }

  predicate Wraps(target: nat, rewind: nat, srcPos: nat) {
    target + rewind >= U64 && target + rewind - U64 < srcPos < rewind
  }

  /**
    SetPos ends between srcPos - rewind, or 0, and srcPos, except for targets so large that adding
    the rewind wraps around.
   */
  lemma LandsInWindowIff(target: nat, rewind: nat, srcPos: nat)
    requires target < U64 && rewind < U64 / 2 && srcPos < U64 / 2
    ensures srcPos - rewind <= Landing(target, rewind, srcPos) <= srcPos <==> !Wraps(target, rewind, srcPos)
    ensures Landing(target, rewind, srcPos) == target <==> target <= srcPos <= target + rewind
  {
    Modulo(target + rewind, U64);
    if srcPos >= rewind { Modulo(srcPos - rewind, U64); } else { Modulo(srcPos + (U64 - rewind), U64); BelowZero(srcPos, rewind); }
  }

  lemma Modulo(x: nat, m: nat)
    requires x < 2 * m
    ensures x % m == if x < m then x else x - m
  {
    DivUnique(x, m, if x < m then 0 else 1, if x < m then x else x - m);
  }

  lemma BelowZero(a: nat, b: nat)
    requires a < b < U64
    ensures (a - b) % U64 == a + (U64 - b)
  {
  }

  /** A target for which it does wrap around. */
  lemma WrappedLanding()
    ensures Wraps(U64 - 5, 10, 6) && Landing(U64 - 5, 10, 6) == U64 - 4
  {
  }

  /** Going back is guaranteed from the end of what was read from the file, not from the reading position. */
  lemma GoesBackIff(readPos: nat, back: nat, rewind: nat, srcPos: nat)
    requires back <= rewind < U64 / 2 && back <= readPos <= srcPos < U64 / 2
    ensures Landing(readPos - back, rewind, srcPos) == readPos - back <==> srcPos - readPos + back <= rewind
    ensures srcPos - readPos > rewind ==> Landing(readPos - back, rewind, srcPos) > readPos
  {
    LandsInWindowIff(readPos - back, rewind, srcPos);
    Modulo(readPos - back + rewind, U64);
    if srcPos >= rewind { Modulo(srcPos - rewind, U64); }
  }

  /** The bytes of the file from start to end are at the front, the rest is as before. */
  ghost predicate Delivered(dst: seq<Byte>, before: seq<Byte>, bytes: seq<Byte>, start: nat, end: nat) {
    && start <= end <= |bytes| && end - start <= |before|
    && dst == bytes[start..end] + before[end - start..]
  }

  lemma NothingDelivered(dst: seq<Byte>, bytes: seq<Byte>, start: nat)
    requires start <= |bytes|
    ensures Delivered(dst, dst, bytes, start, start)
  {
  }

  lemma DeliveredMore(dst: seq<Byte>, before: seq<Byte>, bytes: seq<Byte>, start: nat, end: nat, n: nat)
    requires Delivered(dst, before, bytes, start, end) && end + n <= |bytes| && end - start + n <= |before|
    ensures Delivered(dst[..end - start] + bytes[end..end + n] + dst[end - start + n..], before, bytes, start, end + n)
  {
    assert bytes[start..end] + bytes[end..end + n] == bytes[start..end + n];
    assert dst[end - start + n..] == before[end - start + n..];
  }

  // ---------- CBufferedFile ----------

  class CBufferedFile {
    const src: File
    /** How many bytes have been read from the source, and from this; and where reading has to stop. */
    var nSrcPos: nat
    var nReadPos: nat
    var nReadLimit: nat
    const nRewind: nat
    const vchBuf: array<Byte>

    ghost predicate Valid()
      reads this, src, vchBuf
    {
      && src.pos == nSrcPos <= |src.bytes| < U64 / 2
      && nRewind < vchBuf.Length < 0x1_0000_0000
      && nReadPos <= nSrcPos <= nReadPos + vchBuf.Length
      && Window(vchBuf[..], src.bytes, nSrcPos)
    }

    /** How many bytes the next Fill gets. */
    ghost function FillSize(): nat
      requires Valid() && nReadPos == nSrcPos
      reads this, src, vchBuf
    {
      src.Available(Least(vchBuf.Length - Slot(nSrcPos, vchBuf.Length), vchBuf.Length - nRewind))
    }

    constructor (file: File, nBufSize: nat, nRewindIn: nat)
      requires file.pos == 0 && |file.bytes| < U64 / 2 && nRewindIn < nBufSize < 0x1_0000_0000
      ensures Valid() && src == file && nReadPos == nSrcPos == 0 && nReadLimit == U64 - 1
      ensures nRewind == nRewindIn && vchBuf.Length == nBufSize && fresh(vchBuf)
    {
      src, nSrcPos, nReadPos, nReadLimit, nRewind := file, 0, 0, U64 - 1, nRewindIn;
      vchBuf := new Byte[nBufSize](_ => 0);
    }

    /** Reads more from the source; called when all that was read has been used. */
    method Fill() returns (r: Outcome<bool>)
      requires Valid() && nReadPos == nSrcPos
      modifies this`nSrcPos, src, vchBuf
      ensures Valid() && r != Returned(false)
      ensures nSrcPos == old(nSrcPos) + old(FillSize()) && (r.Thrown? <==> old(FillSize()) == 0)
    {
      var pos := Slot(nSrcPos, vchBuf.Length);
      var readNow := vchBuf.Length - pos;
      var nAvail := vchBuf.Length - (nSrcPos - nReadPos) - nRewind;
      if nAvail < readNow {
        readNow := nAvail;
      }
      if readNow == 0 {
        return Returned(false);
      }
      ghost var before := vchBuf[..];
      var nBytes := src.Fread(vchBuf, pos, readNow);
      WindowMoves(before, src.bytes, nSrcPos, nBytes);
      assert vchBuf[..] == before[..pos] + src.bytes[nSrcPos..nSrcPos + nBytes] + before[pos + nBytes..];
      if nBytes == 0 {
        return Thrown;
      }
      nSrcPos := nSrcPos + nBytes;
      r := Returned(true);
    }

    /** Delivers what the buffer has in one piece, up to left bytes. */
    method TakeBuffered(pch: array<Byte>, at: nat, left: nat, ghost before: seq<Byte>, ghost start: nat) returns (nNow: nat)
      requires Valid() && nReadPos < nSrcPos && pch != vchBuf && 0 < left && at + left <= pch.Length
      requires at + start == nReadPos && |before| == pch.Length && Delivered(pch[..], before, src.bytes, start, nReadPos)
      modifies this`nReadPos, pch
      ensures Valid() && 0 < nNow <= left && nReadPos == old(nReadPos) + nNow
      ensures Delivered(pch[..], before, src.bytes, start, nReadPos)
    {
      hide Window, Delivered, Slot;
      var pos := Slot(nReadPos, vchBuf.Length);
      nNow := left;
      if nNow + pos > vchBuf.Length {
        nNow := vchBuf.Length - pos;
      }
      if nNow + nReadPos > nSrcPos {
        nNow := nSrcPos - nReadPos;
      }
      WindowRun(vchBuf[..], src.bytes, nSrcPos, nReadPos, nNow);
      DeliveredMore(pch[..], before, src.bytes, start, nReadPos, nNow);
      Copy(pch, at, vchBuf, pos, nNow);
      nReadPos := nReadPos + nNow;
    }

    /**
      Delivers the next nSize bytes of the source, or throws: at once at the limit or when asked for
      more than the buffer can keep, else where the source ends.
     */
    method Read(pch: array<Byte>, nSize: nat) returns (r: Outcome<()>)
      requires Valid() && nSize <= pch.Length < U64 / 2 && pch != vchBuf
      modifies this`nSrcPos, this`nReadPos, src, vchBuf, pch
      ensures Valid() && old(nReadPos) <= nReadPos <= old(nReadPos) + nSize
      ensures Delivered(pch[..], old(pch[..]), src.bytes, old(nReadPos), nReadPos)
      ensures r.Returned? ==> nReadPos == old(nReadPos) + nSize
      ensures old(nReadPos) + nSize > nReadLimit || nSize + nRewind > vchBuf.Length ==> r.Thrown? && nReadPos == old(nReadPos)
      ensures r.Thrown? && old(nReadPos) + nSize <= nReadLimit && nSize + nRewind <= vchBuf.Length ==>
        nReadPos < old(nReadPos) + nSize && nReadPos == nSrcPos
      ensures nSize == 1 && old(nReadPos) == old(nSrcPos) && r.Returned? ==> nSrcPos == old(nSrcPos) + old(FillSize())
      ensures nSize == 1 && old(nReadPos) == old(nSrcPos) && r.Thrown? && 1 + old(nReadPos) <= nReadLimit && 1 + nRewind <= vchBuf.Length ==>
        old(FillSize()) == 0
    {
      hide Window, Delivered, Slot;
      NothingDelivered(pch[..], src.bytes, nReadPos);
      if nSize + nReadPos > nReadLimit {
        return Thrown;
      }
      if nSize + nRewind > vchBuf.Length {
        return Thrown;
      }
      ghost var start := nReadPos;
      var left := nSize;
      while left > 0
        invariant Valid() && 0 <= left <= nSize && start + nSize == nReadPos + left
        invariant Delivered(pch[..], old(pch[..]), src.bytes, start, nReadPos)
        invariant left == nSize ==> nSrcPos == old(nSrcPos) && src.calls == old(src.calls)
        invariant nSize == 1 && left == 0 && start == old(nSrcPos) ==> nSrcPos == old(nSrcPos) + old(FillSize())
      {
        if nReadPos == nSrcPos {
          var filled := Fill();
          if filled.Thrown? {
            return Thrown;
          }
        }
        var nNow := TakeBuffered(pch, nSize - left, left, old(pch[..]), start);
        left := left - nNow;
      }
      r := Returned(());
    }

    /** Returns true exactly when the position asked for is reached. */
    method SetPos(nPos: nat) returns (ok: bool)
      requires Valid() && nPos < U64
      modifies this`nReadPos
      ensures nReadPos == Landing(nPos, nRewind, nSrcPos)
      ensures ok <==> nReadPos == nPos
      ensures Valid() <==> !Wraps(nPos, nRewind, nSrcPos)
    {
      LandsInWindowIff(nPos, nRewind, nSrcPos);
      nReadPos := nPos;
      if (nReadPos + nRewind) % U64 < nSrcPos {
        nReadPos := (nSrcPos - nRewind) % U64;
        ok := false;
      } else if nReadPos > nSrcPos {
        nReadPos := nSrcPos;
        ok := false;
      } else {
        ok := true;
      }
    }

    /** Stops reading beyond a position, which may not be behind the reading position. */
    method SetLimit(nPos: nat) returns (ok: bool)
      requires Valid() && nPos < U64
      modifies this`nReadLimit
      ensures Valid() && (ok <==> nPos >= nReadPos)
      ensures nReadLimit == if ok then nPos else old(nReadLimit)
    {
      if nPos < nReadPos {
        return false;
      }
      nReadLimit := nPos;
      ok := true;
    }

    /** Stays on the first ch at or after the reading position, or throws when there is none before the source ends. */
    method FindByte(ch: Byte) returns (r: Outcome<()>)
      requires Valid()
      modifies this`nSrcPos, this`nReadPos, src, vchBuf
      ensures Valid() && nReadPos >= old(nReadPos)
      ensures forall i :: old(nReadPos) <= i < nReadPos ==> src.bytes[i] != ch
      ensures if r.Thrown? then nReadPos == nSrcPos else nReadPos < nSrcPos && src.bytes[nReadPos] == ch
    {
      while true
        invariant Valid() && nReadPos >= old(nReadPos)
        invariant forall i :: old(nReadPos) <= i < nReadPos ==> src.bytes[i] != ch
        decreases |src.bytes| - nReadPos
      {
        if nReadPos == nSrcPos {
          var filled := Fill();
          if filled.Thrown? {
            return Thrown;
          }
        }
        assert vchBuf[Slot(nReadPos, vchBuf.Length)] == src.bytes[nReadPos];
        if vchBuf[Slot(nReadPos, vchBuf.Length)] == ch {
          break;
        }
        nReadPos := nReadPos + 1;
      }
      r := Returned(());
    }
  }

  /**
    Reading one byte of a file of at least ten that delivers all it is asked for, with a buffer of 15 bytes and five to
    go back, reads ten bytes ahead. Going back by that one byte fails and ends at position 5, ahead of where it was.
   */
  method GoesForward(bytes: seq<Byte>) returns (file: CBufferedFile, before: nat, ok: bool)
    requires 10 <= |bytes| < U64 / 2
    ensures fresh(file) && file.src.bytes == bytes && file.nRewind == 5
    ensures before == 1 && !ok && file.nReadPos == 5
  {
    hide Window, Delivered;
    var source := new File(bytes, k => 15);
    file := new CBufferedFile(source, 15, 5);
    assert file.FillSize() == 10;
    var pch := new Byte[1](_ => 0);
    var r := file.Read(pch, 1);
    before := file.nReadPos;
    assert file.nSrcPos == 10;
    GoesBackIff(1, 1, 5, 10);
    ok := file.SetPos(before - 1);
    assert !ok;
  }

  /** memcpy */
  method Copy(dst: array<Byte>, at: nat, src: array<Byte>, from: nat, n: nat)
    requires dst != src && at + n <= dst.Length && from + n <= src.Length
    modifies dst
    ensures dst[..] == old(dst[..at]) + src[from..from + n] + old(dst[at + n..])
  {
    forall k | 0 <= k < n {
      dst[at + k] := src[from + k];
    }
  }

  // ---------- any run ----------

  datatype Op = Read(size: nat) | SetPos(pos: nat) | SetLimit(limit: nat) | FindByte(ch: Byte)

  /** What one call to Read delivered, and from which reading position. */
  datatype Delivery = Delivery(from: nat, data: seq<Byte>)

  ghost predicate FromFile(log: seq<Delivery>, bytes: seq<Byte>) {
    forall k :: 0 <= k < |log| ==>
      log[k].from + |log[k].data| <= |bytes| && log[k].data == bytes[log[k].from..log[k].from + |log[k].data|]
  }

  /** In every run, whatever the source delivers at a time, everything delivered is what the file has at that position. */
  method Perform(file: CBufferedFile, ops: seq<Op>) returns (log: seq<Delivery>)
    requires file.Valid()
    requires forall k :: 0 <= k < |ops| && ops[k].Read? ==> ops[k].size < U64 / 2
    requires forall k :: 0 <= k < |ops| && ops[k].SetPos? ==> ops[k].pos + file.nRewind < U64
    requires forall k :: 0 <= k < |ops| && ops[k].SetLimit? ==> ops[k].limit < U64
    modifies file, file.src, file.vchBuf
    ensures file.Valid() && FromFile(log, file.src.bytes)
  {
    hide FromFile, Window, Landing, Delivered;
    log := [];
    NothingLogged(file.src.bytes);
    for k := 0 to |ops|
      invariant file.Valid() && FromFile(log, file.src.bytes)
    {
      match ops[k]
      case Read(size) =>
        var delivery := ReadOnce(file, size);
        LogMore(log, delivery, file.src.bytes);
        log := log + [delivery];
      case SetPos(pos) =>
        var ok := file.SetPos(pos);
      case SetLimit(limit) =>
        var ok := file.SetLimit(limit);
      case FindByte(ch) =>
        var r := file.FindByte(ch);
    }
  }

  method ReadOnce(file: CBufferedFile, size: nat) returns (delivery: Delivery)
    requires file.Valid() && size < U64 / 2
    modifies file, file.src, file.vchBuf
    ensures file.Valid() && FromFile([delivery], file.src.bytes)
  {
    hide Window, Delivered, FromFile;
    var pch := new Byte[size](_ => 0);
    var from := file.nReadPos;
    ghost var before := pch[..];
    var r := file.Read(pch, size);
    DeliveredFront(pch[..], before, file.src.bytes, from, file.nReadPos);
    delivery := Delivery(from, pch[..][..file.nReadPos - from]);
  }

  lemma DeliveredFront(dst: seq<Byte>, before: seq<Byte>, bytes: seq<Byte>, start: nat, end: nat)
    requires Delivered(dst, before, bytes, start, end)
    ensures start <= end <= |bytes| && end - start <= |dst|
    ensures FromFile([Delivery(start, dst[..end - start])], bytes)
  {
    assert dst[..end - start] == bytes[start..end];
  }

  lemma NothingLogged(bytes: seq<Byte>)
    ensures FromFile([], bytes)
  {
  }

  lemma LogMore(log: seq<Delivery>, delivery: Delivery, bytes: seq<Byte>)
    requires FromFile(log, bytes) && FromFile([delivery], bytes)
    ensures FromFile(log + [delivery], bytes)
  {
    assert [delivery][0] == delivery;
  }
}
