/** Arena of support/lockedpool: a best-fit allocator that coalesces the chunks it gets back. */
module Arenas {
  import opened Bits
  import opened Arith

  // ---------- align_up ----------

  /** (x + align - 1) & ~(align - 1) in 64 bits. */
  function AlignUp(x: nat, align: nat): nat
    requires 0 < align <= U64
  {
    And((x + align - 1) % U64, U64 - align)
  }

  lemma {:induction false} AndOnes(y: nat, w: nat)
    requires y < Pow2(w)
    ensures And(y, Ones(w)) == y
  {
    if w > 0 {
      HalvesOfAnd(y, Ones(w));
      HalfOfOnes(w);
      AndOnes(y / 2, w - 1);
    }
  }

  lemma Pow2Half(k: nat)
    requires k > 0
    ensures Pow2(k) == 2 * Pow2(k - 1)
  {
  }

  /** Masking the k low bits away. */
  lemma {:induction false} AndHigh(y: nat, k: nat, w: nat)
    requires y < Pow2(w) && k <= w
    ensures Pow2(k) <= Pow2(w) && And(y, Pow2(w) - Pow2(k)) == y - y % Pow2(k)
  {
    hide And, Pow2;
    Pow2Mono(k, w);
    if k == 0 {
      assert Pow2(0) == 1 by { Pow2Zero(); }
      AndOnes(y, w);
    } else {
      Pow2Half(w);
      Pow2Half(k);
      AndHigh(y / 2, k - 1, w - 1);
      AndStep(y, Pow2(w - 1) - Pow2(k - 1), Pow2(k - 1));
    }
  }

  lemma AndStep(y: nat, m: nat, a: nat)
    requires a > 0 && And(y / 2, m) == y / 2 - (y / 2) % a
    ensures And(y, 2 * m) == y - y % (2 * a)
  {
    hide And;
    HalvesOfAnd(y, 2 * m);
    HalfMod(y, a);
  }

  lemma HalfMod(y: nat, m: nat)
    requires m > 0
    ensures y - y % (2 * m) == 2 * (y / 2 - (y / 2) % m)
  {
    var q := (y / 2) / m;
    var r := (y / 2) % m;
    assert y == (2 * m) * q + (2 * r + y % 2);
    DivUnique(y, 2 * m, q, 2 * r + y % 2);
  }

  /** The least multiple of the alignment that is not below x, or zero when computing it wraps around. */
  lemma AlignUpIs(x: nat, k: nat)
    requires x < U64 && k < 64
    ensures 0 < Pow2(k) <= U64
    ensures var align := Pow2(k); var r := AlignUp(x, align);
      && r % align == 0
      && (x + align - 1 < U64 ==> x <= r < x + align)
      && (x + align - 1 >= U64 ==> r == 0)
  {
    hide And, Pow2;
    Pow2Of64();
    Pow2Mono(k, 64);
    var align := Pow2(k);
    var y := (x + align - 1) % U64;
    AndHigh(y, k, 64);
    if x + align - 1 >= U64 {
      DivUnique(x + align - 1, U64, 1, x + align - 1 - U64);
    } else {
      DivUnique(x + align - 1, U64, 0, x + align - 1);
    }
    Multiple(y, align);
  }

  // ---------- layouts ----------

  /** A stretch of the arena. */
  datatype Span = Span(begin: nat, size: nat, free: bool) {
    function End(): nat { begin + size }
  }

  /** A node of the size-sorted index. */
  datatype Chunk = Chunk(size: nat, begin: nat)

  /** The spans follow each other from `from` to `to`. */
  ghost predicate Chain(spans: seq<Span>, from: nat, to: nat) {
    if spans == [] then from == to
    else spans[0].begin == from && spans[0].End() <= to && Chain(spans[1..], spans[0].End(), to)
  }

  /** Only the arena as a whole may be empty. */
  ghost predicate Sized(spans: seq<Span>) {
    forall i :: 0 <= i < |spans| ==> spans[i].size > 0 || (|spans| == 1 && spans[i].free)
  }

  /** No two free spans are adjacent. */
  ghost predicate Coalesced(spans: seq<Span>) {
    forall i, j :: 0 <= i < |spans| && j == i + 1 < |spans| ==> !(spans[i].free && spans[j].free)
  }

  /** The spans tile the arena, and no two free ones are adjacent. */
  ghost predicate Tiles(spans: seq<Span>, from: nat, to: nat) {
    Chain(spans, from, to) && Sized(spans) && Coalesced(spans)
  }

  lemma {:induction false} ChainJoin(a: seq<Span>, b: seq<Span>, from: nat, mid: nat, to: nat)
    requires Chain(a, from, mid) && Chain(b, mid, to) && mid <= to
    ensures Chain(a + b, from, to)
  {
    if a == [] {
      assert a + b == b;
    } else {
      assert (a + b)[1..] == a[1..] + b;
      ChainJoin(a[1..], b, a[0].End(), mid, to);
    }
  }

  lemma {:induction false} ChainBound(spans: seq<Span>, from: nat, to: nat)
    requires Chain(spans, from, to)
    ensures from <= to
  {
    if spans != [] { ChainBound(spans[1..], spans[0].End(), to); }
  }

  lemma {:induction false} ChainSplit(spans: seq<Span>, from: nat, to: nat, i: nat) returns (mid: nat)
    requires Chain(spans, from, to) && i <= |spans|
    ensures from <= mid <= to && Chain(spans[..i], from, mid) && Chain(spans[i..], mid, to)
    ensures i < |spans| ==> mid == spans[i].begin
    ensures i > 0 ==> mid == spans[i - 1].End()
  {
    ChainBound(spans, from, to);
    if i == 0 {
      mid := from;
      assert spans[i..] == spans;
    } else {
      mid := ChainSplit(spans[1..], spans[0].End(), to, i - 1);
      assert spans[1..][..i - 1] == spans[..i][1..];
      assert spans[1..][i - 1..] == spans[i..];
    }
  }

  /** In a chain, an earlier span ends where a later one begins or before. */
  lemma ChainOrder(spans: seq<Span>, from: nat, to: nat, i: nat, j: nat)
    requires Chain(spans, from, to) && i < j < |spans|
    ensures spans[i].End() <= spans[j].begin
    ensures i + 1 == j ==> spans[i].End() == spans[j].begin
  {
    var mid := ChainSplit(spans, from, to, i + 1);
    var high := ChainSplit(spans[i + 1..], mid, to, j - (i + 1));
  }

  /** Every address of the arena is in exactly one span. */
  lemma TilesCover(spans: seq<Span>, from: nat, to: nat, a: nat) returns (i: nat)
    requires Chain(spans, from, to) && from <= a < to
    ensures i < |spans| && spans[i].begin <= a < spans[i].End()
    ensures forall j :: 0 <= j < |spans| && spans[j].begin <= a < spans[j].End() ==> j == i
  {
    i := FindSpan(spans, from, to, a);
    forall j | 0 <= j < |spans| && spans[j].begin <= a < spans[j].End() ensures j == i {
      if i < j { ChainOrder(spans, from, to, i, j); }
      if j < i { ChainOrder(spans, from, to, j, i); }
    }
  }

  lemma {:induction false} FindSpan(spans: seq<Span>, from: nat, to: nat, a: nat) returns (i: nat)
    requires Chain(spans, from, to) && from <= a < to
    ensures i < |spans| && spans[i].begin <= a < spans[i].End()
  {
    if a < spans[0].End() {
      i := 0;
    } else {
      i := FindSpan(spans[1..], spans[0].End(), to, a);
      i := i + 1;
    }
  }

  lemma TilesInside(spans: seq<Span>, from: nat, to: nat, i: nat)
    requires Tiles(spans, from, to) && i < |spans|
    ensures from <= spans[i].begin && spans[i].End() <= to
    ensures spans[i].size > 0 || |spans| == 1
    ensures i > 0 ==> spans[i - 1].End() == spans[i].begin
  {
    var mid := ChainSplit(spans, from, to, i);
  }

  /** A span is found by where it begins, and by where it ends. */
  lemma SpanByBegin(spans: seq<Span>, from: nat, to: nat, i: nat, j: nat)
    requires Tiles(spans, from, to) && i < |spans| && j < |spans|
    ensures spans[i].begin == spans[j].begin ==> i == j
    ensures spans[i].End() == spans[j].End() ==> i == j
    ensures spans[i].End() == spans[j].begin ==> i + 1 == j || |spans| == 1
  {
    if i < j {
      ChainOrder(spans, from, to, i, j);
      if i + 1 < j { ChainOrder(spans, from, to, i, i + 1); ChainOrder(spans, from, to, i + 1, j); }
    }
    if j < i { ChainOrder(spans, from, to, j, i); }
  }

  lemma NotBothFree(spans: seq<Span>, from: nat, to: nat)
    requires Tiles(spans, from, to)
    ensures |spans| > 1 ==> !(spans[0].free && spans[1].free)
  {
  }

  /** When nothing is used, one free span is the whole arena. */
  lemma NothingUsed(spans: seq<Span>, from: nat, to: nat)
    requires Tiles(spans, from, to) && from < to && forall i :: 0 <= i < |spans| ==> spans[i].free
    ensures spans == [Span(from, to - from, true)]
  {
    assert Chain(spans[1..], spans[0].End(), to);
    NotBothFree(spans, from, to);
  }

  // ---------- replacing spans ----------

  /** The layout with the spans [lo, hi) replaced by others. */
  function Replace(spans: seq<Span>, lo: nat, hi: nat, other: seq<Span>): seq<Span>
    requires lo <= hi <= |spans|
  {
    spans[..lo] + other + spans[hi..]
  }

  /** Replacing a stretch by a chain over the same addresses keeps the chain. */
  lemma ReplaceChain(spans: seq<Span>, from: nat, to: nat, lo: nat, hi: nat, other: seq<Span>)
    requires Chain(spans, from, to) && lo < hi <= |spans|
    requires Chain(other, spans[lo].begin, spans[hi - 1].End())
    ensures Chain(Replace(spans, lo, hi, other), from, to)
  {
    var mid := ChainSplit(spans, from, to, lo);
    var high := ChainSplit(spans, from, to, hi);
    ChainJoin(spans[..lo], other, from, mid, high);
    ChainJoin(spans[..lo] + other, spans[hi..], from, high, to);
  }

  /** The span does not meet the addresses [low, high). */
  predicate Outside(s: Span, low: nat, high: nat) {
    s.size > 0 && (s.End() <= low || high <= s.begin)
  }

  /** A span is one of a stretch, or outside its addresses. */
  lemma InsideOrOutside(spans: seq<Span>, from: nat, to: nat, lo: nat, hi: nat, i: nat)
    requires Tiles(spans, from, to) && lo < hi <= |spans| && i < |spans|
    ensures !(lo <= i < hi) ==> Outside(spans[i], spans[lo].begin, spans[hi - 1].End())
    ensures lo <= i < hi && spans[i].size > 0 ==> !Outside(spans[i], spans[lo].begin, spans[hi - 1].End())
  {
    if i < lo { ChainOrder(spans, from, to, i, lo); }
    if hi <= i { ChainOrder(spans, from, to, hi - 1, i); }
    if lo < i < hi { ChainOrder(spans, from, to, lo, i); }
    if lo <= i < hi - 1 { ChainOrder(spans, from, to, i, hi - 1); }
  }

  /** The spans of the new layout: those outside the stretch, and the new ones. */
  lemma ReplaceMembers(spans: seq<Span>, from: nat, to: nat, lo: nat, hi: nat, other: seq<Span>, x: Span)
    requires Tiles(spans, from, to) && lo < hi <= |spans| && forall j :: lo <= j < hi ==> spans[j].size > 0
    ensures var low, high := spans[lo].begin, spans[hi - 1].End();
      && (x in Replace(spans, lo, hi, other) <==> x in other || (x in spans && Outside(x, low, high)))
      && (x in spans ==> Outside(x, low, high) || x in spans[lo..hi])
  {
    var after := Replace(spans, lo, hi, other);
    if x in spans {
      var i :| 0 <= i < |spans| && spans[i] == x;
      InsideOrOutside(spans, from, to, lo, hi, i);
      if i < lo { assert spans[..lo][i] == x; }
      if hi <= i { assert spans[hi..][i - hi] == x; }
      if lo <= i < hi { assert spans[lo..hi][i - lo] == x; }
    }
    if x in spans[..lo] {
      var i :| 0 <= i < lo && spans[i] == x;
      InsideOrOutside(spans, from, to, lo, hi, i);
    }
    if x in spans[hi..] {
      var i :| 0 <= i < |spans[hi..]| && spans[hi..][i] == x;
      InsideOrOutside(spans, from, to, lo, hi, hi + i);
    }
  }

  // ---------- the size-sorted index ----------

  /** Insertion after every chunk that is not larger, as std::multimap::emplace does. */
  function Emplace(chunks: seq<Chunk>, c: Chunk): (r: seq<Chunk>)
    ensures forall x :: x in r <==> x == c || x in chunks
  {
    if chunks == [] then [c]
    else if chunks[0].size <= c.size then
      assert chunks == [chunks[0]] + chunks[1..];
      [chunks[0]] + Emplace(chunks[1..], c)
    else [c] + chunks
  }

  function Erase(chunks: seq<Chunk>, c: Chunk): seq<Chunk> {
    if chunks == [] then []
    else if chunks[0] == c then chunks[1..]
    else [chunks[0]] + Erase(chunks[1..], c)
  }

  /** The place of the first chunk that is not smaller. */
  function LowerBound(chunks: seq<Chunk>, size: nat): (i: nat)
    ensures i <= |chunks|
    ensures forall j :: 0 <= j < i ==> chunks[j].size < size
    ensures i < |chunks| ==> chunks[i].size >= size
  {
    if chunks == [] || chunks[0].size >= size then 0 else 1 + LowerBound(chunks[1..], size)
  }

  /** Smaller sizes first, and no chunk twice. */
  ghost predicate Sorted(chunks: seq<Chunk>) {
    chunks != [] ==>
      && (forall x :: x in chunks[1..] ==> chunks[0].size <= x.size && x != chunks[0])
      && Sorted(chunks[1..])
  }

  lemma {:induction false} EmplaceSorted(chunks: seq<Chunk>, c: Chunk)
    requires Sorted(chunks) && c !in chunks
    ensures Sorted(Emplace(chunks, c))
  {
    if chunks != [] {
      var r := Emplace(chunks, c);
      assert chunks == [chunks[0]] + chunks[1..];
      EmplaceSorted(chunks[1..], c);
      assert r[1..] == if chunks[0].size <= c.size then Emplace(chunks[1..], c) else chunks;
    }
  }

  lemma {:induction false} EraseSorted(chunks: seq<Chunk>, c: Chunk)
    requires Sorted(chunks)
    ensures Sorted(Erase(chunks, c))
    ensures forall x :: x in Erase(chunks, c) <==> x in chunks && x != c
  {
    if chunks != [] {
      assert chunks == [chunks[0]] + chunks[1..];
      EraseSorted(chunks[1..], c);
      if chunks[0] != c { assert Erase(chunks, c)[1..] == Erase(chunks[1..], c); }
    }
  }

  lemma {:induction false} SortedOrder(chunks: seq<Chunk>, i: nat, j: nat)
    requires Sorted(chunks) && i <= j < |chunks|
    ensures chunks[i].size <= chunks[j].size
  {
    if i == 0 {
      if j > 0 { assert chunks[1..][j - 1] in chunks[1..]; }
    } else {
      SortedOrder(chunks[1..], i - 1, j - 1);
    }
  }

  // ---------- what the four maps say ----------

  ghost predicate BeginsDescribe(spans: seq<Span>, byBegin: map<nat, Chunk>) {
    && (forall s :: s in spans && s.free ==> s.begin in byBegin && byBegin[s.begin] == Chunk(s.size, s.begin))
    && (forall b :: b in byBegin ==> byBegin[b].begin == b && Span(b, byBegin[b].size, true) in spans)
  }

  ghost predicate EndsDescribe(spans: seq<Span>, byEnd: map<nat, Chunk>) {
    && (forall s :: s in spans && s.free ==> s.End() in byEnd && byEnd[s.End()] == Chunk(s.size, s.begin))
    && (forall e :: e in byEnd ==> byEnd[e].begin + byEnd[e].size == e && Span(byEnd[e].begin, byEnd[e].size, true) in spans)
  }

  ghost predicate SizesDescribe(spans: seq<Span>, sizeToFree: seq<Chunk>) {
    && (forall s :: s in spans && s.free ==> Chunk(s.size, s.begin) in sizeToFree)
    && (forall c :: c in sizeToFree ==> Span(c.begin, c.size, true) in spans)
  }

  ghost predicate UsedDescribes(spans: seq<Span>, used: map<nat, nat>) {
    && (forall s :: s in spans && !s.free ==> s.begin in used && used[s.begin] == s.size)
    && (forall b :: b in used ==> Span(b, used[b], false) in spans)
  }

  /** The three free indices and the used map describe the same spans. */
  ghost predicate Describes(spans: seq<Span>, sizeToFree: seq<Chunk>, byBegin: map<nat, Chunk>, byEnd: map<nat, Chunk>,
                            used: map<nat, nat>)
  {
    && SizesDescribe(spans, sizeToFree) && BeginsDescribe(spans, byBegin)
    && EndsDescribe(spans, byEnd) && UsedDescribes(spans, used)
  }

  /** `after` has the spans of `spans` outside the addresses [low, high), and others inside. */
  ghost predicate Swapped(spans: seq<Span>, after: seq<Span>, low: nat, high: nat, other: seq<Span>) {
    && (forall x :: x in after <==> x in other || (x in spans && Outside(x, low, high)))
    && (forall x :: x in spans ==> Outside(x, low, high) || (low <= x.begin && x.End() <= high && x.size > 0))
    && (forall x :: x in other ==> low <= x.begin && x.End() <= high && x.size > 0)
  }

  lemma BeginsSwap(spans: seq<Span>, after: seq<Span>, low: nat, high: nat, other: seq<Span>,
                   old_: map<nat, Chunk>, new_: map<nat, Chunk>)
    requires Swapped(spans, after, low, high, other) && BeginsDescribe(spans, old_)
    requires forall b :: !(low <= b < high) ==> (b in new_ <==> b in old_) && (b in new_ ==> new_[b] == old_[b])
    requires forall b :: b in new_ && low <= b < high ==> new_[b].begin == b && Span(b, new_[b].size, true) in other
    requires forall s :: s in other && s.free ==> s.begin in new_ && new_[s.begin] == Chunk(s.size, s.begin)
    ensures BeginsDescribe(after, new_)
  {
  }

  lemma EndsSwap(spans: seq<Span>, after: seq<Span>, low: nat, high: nat, other: seq<Span>,
                 old_: map<nat, Chunk>, new_: map<nat, Chunk>)
    requires Swapped(spans, after, low, high, other) && EndsDescribe(spans, old_)
    requires forall e :: !(low < e <= high) ==> (e in new_ <==> e in old_) && (e in new_ ==> new_[e] == old_[e])
    requires forall e :: e in new_ && low < e <= high ==>
               new_[e].begin + new_[e].size == e && Span(new_[e].begin, new_[e].size, true) in other
    requires forall s :: s in other && s.free ==> s.End() in new_ && new_[s.End()] == Chunk(s.size, s.begin)
    ensures EndsDescribe(after, new_)
  {
  }

  lemma SizesSwap(spans: seq<Span>, after: seq<Span>, low: nat, high: nat, other: seq<Span>,
                  old_: seq<Chunk>, new_: seq<Chunk>)
    requires Swapped(spans, after, low, high, other) && SizesDescribe(spans, old_)
    requires forall c :: c in new_ <==>
               if low <= c.begin < high then Span(c.begin, c.size, true) in other else c in old_
    ensures SizesDescribe(after, new_)
  {
  }

  lemma UsedSwap(spans: seq<Span>, after: seq<Span>, low: nat, high: nat, other: seq<Span>,
                 old_: map<nat, nat>, new_: map<nat, nat>)
    requires Swapped(spans, after, low, high, other) && UsedDescribes(spans, old_)
    requires forall b :: !(low <= b < high) ==> (b in new_ <==> b in old_) && (b in new_ ==> new_[b] == old_[b])
    requires forall b :: b in new_ && low <= b < high ==> Span(b, new_[b], false) in other
    requires forall s :: s in other && !s.free ==> s.begin in new_ && new_[s.begin] == s.size
    ensures UsedDescribes(after, new_)
  {
  }

  lemma ReplaceSwaps(spans: seq<Span>, from: nat, to: nat, lo: nat, hi: nat, other: seq<Span>)
    requires Tiles(spans, from, to) && lo < hi <= |spans| && forall j :: lo <= j < hi ==> spans[j].size > 0
    requires forall x :: x in other ==> spans[lo].begin <= x.begin && x.End() <= spans[hi - 1].End() && x.size > 0
    ensures Swapped(spans, Replace(spans, lo, hi, other), spans[lo].begin, spans[hi - 1].End(), other)
  {
    var low, high := spans[lo].begin, spans[hi - 1].End();
    var after := Replace(spans, lo, hi, other);
    forall x: Span
      ensures x in after <==> x in other || (x in spans && Outside(x, low, high))
      ensures x in spans ==> Outside(x, low, high) || (low <= x.begin && x.End() <= high && x.size > 0)
    {
      ReplaceMembers(spans, from, to, lo, hi, other, x);
      if x in spans[lo..hi] {
        var j :| 0 <= j < hi - lo && spans[lo..hi][j] == x;
        if j > 0 { ChainOrder(spans, from, to, lo, lo + j); }
        if lo + j < hi - 1 { ChainOrder(spans, from, to, lo + j, hi - 1); }
      }
    }
  }

  /** Moving the whole of a free span to the used ones. */
  lemma WholeUsed(spans: seq<Span>, from: nat, to: nat, i: nat, sizeToFree: seq<Chunk>,
                  byBegin: map<nat, Chunk>, byEnd: map<nat, Chunk>, used: map<nat, nat>)
    requires Tiles(spans, from, to) && Describes(spans, sizeToFree, byBegin, byEnd, used) && Sorted(sizeToFree)
    requires i < |spans| && spans[i].free && spans[i].size > 0
    ensures var s := spans[i]; var c := Chunk(s.size, s.begin);
      Describes(Replace(spans, i, i + 1, [Span(s.begin, s.size, false)]), Erase(sizeToFree, c),
                byBegin - {s.begin}, byEnd - {s.End()}, used[s.begin := s.size])
  {
    hide Replace, Tiles, SizesDescribe, BeginsDescribe, EndsDescribe, UsedDescribes, Swapped;
    var s := spans[i];
    var other := [Span(s.begin, s.size, false)];
    var after := Replace(spans, i, i + 1, other);
    EraseSorted(sizeToFree, Chunk(s.size, s.begin));
    ReplaceSwaps(spans, from, to, i, i + 1, other);
    OnlyThis(spans, from, to, i, sizeToFree, byBegin, byEnd, used);
    SizesSwap(spans, after, s.begin, s.End(), other, sizeToFree, Erase(sizeToFree, Chunk(s.size, s.begin)));
    BeginsSwap(spans, after, s.begin, s.End(), other, byBegin, byBegin - {s.begin});
    EndsSwap(spans, after, s.begin, s.End(), other, byEnd, byEnd - {s.End()});
    UsedSwap(spans, after, s.begin, s.End(), other, used, used[s.begin := s.size]);
  }

  /** Inside the addresses of a free span, the maps say nothing but that span. */
  lemma OnlyThis(spans: seq<Span>, from: nat, to: nat, i: nat, sizeToFree: seq<Chunk>,
                 byBegin: map<nat, Chunk>, byEnd: map<nat, Chunk>, used: map<nat, nat>)
    requires Tiles(spans, from, to) && Describes(spans, sizeToFree, byBegin, byEnd, used)
    requires i < |spans| && spans[i].free && spans[i].size > 0
    ensures var s := spans[i];
      && (forall c :: c in sizeToFree && s.begin <= c.begin < s.End() ==> c == Chunk(s.size, s.begin))
      && (forall b :: b in byBegin && s.begin <= b < s.End() ==> b == s.begin)
      && (forall e :: e in byEnd && s.begin < e <= s.End() ==> e == s.End())
      && (forall b :: b in used ==> !(s.begin <= b < s.End()))
  {
    hide SizesDescribe, BeginsDescribe, EndsDescribe, UsedDescribes, Tiles;
    var s := spans[i];
    forall x: Span | x in spans ensures Outside(x, s.begin, s.End()) || x == s {
      ReplaceMembers(spans, from, to, i, i + 1, [], x);
      assert spans[i..i + 1] == [s];
    }
    OnlySize(spans, s, sizeToFree);
    OnlyBegin(spans, s, byBegin);
    OnlyEnd(spans, s, byEnd);
    OnlyUsed(spans, s, used);
  }

  lemma OnlySize(spans: seq<Span>, s: Span, sizeToFree: seq<Chunk>)
    requires SizesDescribe(spans, sizeToFree) && forall x :: x in spans ==> Outside(x, s.begin, s.End()) || x == s
    ensures forall c :: c in sizeToFree && s.begin <= c.begin < s.End() ==> c == Chunk(s.size, s.begin)
  {
  }

  lemma OnlyBegin(spans: seq<Span>, s: Span, byBegin: map<nat, Chunk>)
    requires BeginsDescribe(spans, byBegin) && forall x :: x in spans ==> Outside(x, s.begin, s.End()) || x == s
    ensures forall b :: b in byBegin && s.begin <= b < s.End() ==> b == s.begin
  {
  }

  lemma OnlyEnd(spans: seq<Span>, s: Span, byEnd: map<nat, Chunk>)
    requires EndsDescribe(spans, byEnd) && forall x :: x in spans ==> Outside(x, s.begin, s.End()) || x == s
    ensures forall e :: e in byEnd && s.begin < e <= s.End() ==> e == s.End()
  {
  }

  lemma OnlyUsed(spans: seq<Span>, s: Span, used: map<nat, nat>)
    requires UsedDescribes(spans, used) && s.free && forall x :: x in spans ==> Outside(x, s.begin, s.End()) || x == s
    ensures forall b :: b in used ==> !(s.begin <= b < s.End())
  {
  }

  /** Taking a part from the end of a free span. */
  lemma PartUsed(spans: seq<Span>, from: nat, to: nat, i: nat, size: nat, sizeToFree: seq<Chunk>,
                 byBegin: map<nat, Chunk>, byEnd: map<nat, Chunk>, used: map<nat, nat>)
    requires Tiles(spans, from, to) && Describes(spans, sizeToFree, byBegin, byEnd, used) && Sorted(sizeToFree)
    requires i < |spans| && spans[i].free && 0 < size < spans[i].size
    ensures var s := spans[i]; var c := Chunk(s.size, s.begin); var rest := s.size - size; var r := Chunk(rest, s.begin);
      Describes(Replace(spans, i, i + 1, Parts(s, size)),
                Erase(Emplace(sizeToFree, r), c),
                byBegin[s.begin := r], (byEnd - {s.End()})[s.begin + rest := r], used[s.begin + rest := size])
    ensures Chunk(spans[i].size - size, spans[i].begin) !in sizeToFree
  {
    hide Replace, Tiles, BeginsDescribe, EndsDescribe, UsedDescribes, SizesDescribe, Swapped, Emplace, Erase, Sorted;
    var s := spans[i];
    var other := Parts(s, size);
    var after := Replace(spans, i, i + 1, other);
    OnlyThis(spans, from, to, i, sizeToFree, byBegin, byEnd, used);
    ReplaceSwaps(spans, from, to, i, i + 1, other);
    PartSizes(spans, after, s, size, sizeToFree);
    PartBegins(spans, after, s, size, byBegin);
    PartEnds(spans, after, s, size, byEnd);
    PartOfUsed(spans, after, s, size, used);
  }

  function Parts(s: Span, size: nat): seq<Span>
    requires size < s.size
  {
    [Span(s.begin, s.size - size, true), Span(s.begin + (s.size - size), size, false)]
  }

  lemma PartSizes(spans: seq<Span>, after: seq<Span>, s: Span, size: nat, sizeToFree: seq<Chunk>)
    requires Sorted(sizeToFree) && SizesDescribe(spans, sizeToFree) && 0 < size < s.size
    requires Swapped(spans, after, s.begin, s.End(), Parts(s, size))
    requires forall c :: c in sizeToFree && s.begin <= c.begin < s.End() ==> c == Chunk(s.size, s.begin)
    ensures Chunk(s.size - size, s.begin) !in sizeToFree
    ensures SizesDescribe(after, Erase(Emplace(sizeToFree, Chunk(s.size - size, s.begin)), Chunk(s.size, s.begin)))
  {
    hide SizesDescribe, Swapped;
    var r := Chunk(s.size - size, s.begin);
    var after' := Erase(Emplace(sizeToFree, r), Chunk(s.size, s.begin));
    EmplaceSorted(sizeToFree, r);
    EraseSorted(Emplace(sizeToFree, r), Chunk(s.size, s.begin));
    SizesSwap(spans, after, s.begin, s.End(), Parts(s, size), sizeToFree, after');
  }

  lemma PartBegins(spans: seq<Span>, after: seq<Span>, s: Span, size: nat, byBegin: map<nat, Chunk>)
    requires BeginsDescribe(spans, byBegin) && 0 < size < s.size
    requires Swapped(spans, after, s.begin, s.End(), Parts(s, size))
    requires forall b :: b in byBegin && s.begin <= b < s.End() ==> b == s.begin
    ensures BeginsDescribe(after, byBegin[s.begin := Chunk(s.size - size, s.begin)])
  {
    hide BeginsDescribe, Swapped;
    BeginsSwap(spans, after, s.begin, s.End(), Parts(s, size), byBegin, byBegin[s.begin := Chunk(s.size - size, s.begin)]);
  }

  lemma PartEnds(spans: seq<Span>, after: seq<Span>, s: Span, size: nat, byEnd: map<nat, Chunk>)
    requires EndsDescribe(spans, byEnd) && 0 < size < s.size
    requires Swapped(spans, after, s.begin, s.End(), Parts(s, size))
    requires forall e :: e in byEnd && s.begin < e <= s.End() ==> e == s.End()
    ensures EndsDescribe(after, (byEnd - {s.End()})[s.begin + (s.size - size) := Chunk(s.size - size, s.begin)])
  {
    hide EndsDescribe, Swapped;
    EndsSwap(spans, after, s.begin, s.End(), Parts(s, size), byEnd,
             (byEnd - {s.End()})[s.begin + (s.size - size) := Chunk(s.size - size, s.begin)]);
  }

  lemma PartOfUsed(spans: seq<Span>, after: seq<Span>, s: Span, size: nat, used: map<nat, nat>)
    requires UsedDescribes(spans, used) && 0 < size < s.size
    requires Swapped(spans, after, s.begin, s.End(), Parts(s, size))
    requires forall b :: b in used ==> !(s.begin <= b < s.End())
    ensures UsedDescribes(after, used[s.begin + (s.size - size) := size])
  {
    hide UsedDescribes, Swapped;
    UsedSwap(spans, after, s.begin, s.End(), Parts(s, size), used, used[s.begin + (s.size - size) := size]);
  }

  // The maps after the stretch [low, high) has become one free chunk: as they were outside, and only that chunk inside.

  ghost predicate SizesFreed(old_: seq<Chunk>, new_: seq<Chunk>, low: nat, high: nat)
    requires low <= high
  {
    forall x :: x in new_ <==> x == Chunk(high - low, low) || (x in old_ && !(low <= x.begin < high))
  }

  ghost predicate BeginsFreed(old_: map<nat, Chunk>, new_: map<nat, Chunk>, low: nat, high: nat)
    requires low <= high
  {
    && (forall b :: b in new_ <==> b == low || (b in old_ && !(low <= b < high)))
    && (forall b :: b in new_ ==> new_[b] == if b == low then Chunk(high - low, low) else old_[b])
  }

  ghost predicate EndsFreed(old_: map<nat, Chunk>, new_: map<nat, Chunk>, low: nat, high: nat)
    requires low <= high
  {
    && (forall e :: e in new_ <==> e == high || (e in old_ && !(low < e <= high)))
    && (forall e :: e in new_ ==> new_[e] == if e == high then Chunk(high - low, low) else old_[e])
  }

  ghost predicate UsedFreed(old_: map<nat, nat>, new_: map<nat, nat>, low: nat, high: nat) {
    && (forall b :: b in new_ <==> b in old_ && !(low <= b < high))
    && (forall b :: b in new_ ==> new_[b] == old_[b])
  }

  /** Giving back a used span, merged with its free neighbours: [lo, hi) are the span and those neighbours. */
  lemma Freed(spans: seq<Span>, from: nat, to: nat, lo: nat, hi: nat, low: nat, high: nat, sizeToFree: seq<Chunk>,
              byBegin: map<nat, Chunk>, byEnd: map<nat, Chunk>, used: map<nat, nat>,
              sizeToFree': seq<Chunk>, byBegin': map<nat, Chunk>, byEnd': map<nat, Chunk>, used': map<nat, nat>)
    requires Tiles(spans, from, to) && Describes(spans, sizeToFree, byBegin, byEnd, used)
    requires lo < hi <= |spans| && forall j :: lo <= j < hi ==> spans[j].size > 0
    requires low == spans[lo].begin < high == spans[hi - 1].End()
    requires SizesFreed(sizeToFree, sizeToFree', low, high) && BeginsFreed(byBegin, byBegin', low, high)
    requires EndsFreed(byEnd, byEnd', low, high) && UsedFreed(used, used', low, high)
    ensures Describes(Replace(spans, lo, hi, [Span(low, high - low, true)]), sizeToFree', byBegin', byEnd', used')
  {
    hide Replace, Tiles, BeginsDescribe, EndsDescribe, UsedDescribes, SizesDescribe, Swapped;
    var other := [Span(low, high - low, true)];
    var after := Replace(spans, lo, hi, other);
    ReplaceSwaps(spans, from, to, lo, hi, other);
    SizesSwap(spans, after, low, high, other, sizeToFree, sizeToFree');
    BeginsSwap(spans, after, low, high, other, byBegin, byBegin');
    EndsSwap(spans, after, low, high, other, byEnd, byEnd');
    UsedSwap(spans, after, low, high, other, used, used');
  }

  // ---------- what alloc and free do to a layout ----------

  /** A free span after `size` bytes have been taken from its end. */
  function Taken(s: Span, size: nat): seq<Span>
    requires size <= s.size
  {
    if size == s.size then [Span(s.begin, s.size, false)] else Parts(s, size)
  }

  function AllocLayout(spans: seq<Span>, i: nat, size: nat): seq<Span>
    requires i < |spans| && size <= spans[i].size
  {
    Replace(spans, i, i + 1, Taken(spans[i], size))
  }

  /** Where the stretch that is merged with span i begins and ends. */
  function MergeLow(spans: seq<Span>, i: nat): (lo: nat)
    requires i < |spans|
    ensures lo <= i
  {
    if i > 0 && spans[i - 1].free then i - 1 else i
  }

  function MergeHigh(spans: seq<Span>, i: nat): (hi: nat)
    requires i < |spans|
    ensures i < hi <= |spans|
  {
    if i + 1 < |spans| && spans[i + 1].free then i + 2 else i + 1
  }

  /** Span i, used before, is free and merged with its free neighbours. */
  function FreeLayout(spans: seq<Span>, i: nat): seq<Span>
    requires i < |spans| && spans[MergeLow(spans, i)].begin <= spans[MergeHigh(spans, i) - 1].End()
  {
    var lo, hi := MergeLow(spans, i), MergeHigh(spans, i);
    var low, high := spans[lo].begin, spans[hi - 1].End();
    Replace(spans, lo, hi, [Span(low, high - low, true)])
  }

  lemma ReplaceElements(spans: seq<Span>, lo: nat, hi: nat, other: seq<Span>, j: nat)
    requires lo <= hi <= |spans| && j < |Replace(spans, lo, hi, other)|
    ensures Replace(spans, lo, hi, other)[j]
         == if j < lo then spans[j] else if j < lo + |other| then other[j - lo] else spans[hi + (j - lo - |other|)]
  {
  }

  lemma ReplaceSized(spans: seq<Span>, lo: nat, hi: nat, other: seq<Span>)
    requires Sized(spans) && lo < hi <= |spans| && forall j :: 0 <= j < |other| ==> other[j].size > 0
    ensures Sized(Replace(spans, lo, hi, other))
  {
    var after := Replace(spans, lo, hi, other);
    forall j | 0 <= j < |after| ensures after[j].size > 0 { ReplaceElements(spans, lo, hi, other, j); }
  }

  lemma ReplaceCoalesced(spans: seq<Span>, lo: nat, hi: nat, other: seq<Span>)
    requires Coalesced(spans) && Coalesced(other) && lo < hi <= |spans| && other != []
    requires lo > 0 ==> !(spans[lo - 1].free && other[0].free)
    requires hi < |spans| ==> !(other[|other| - 1].free && spans[hi].free)
    ensures Coalesced(Replace(spans, lo, hi, other))
  {
    var after := Replace(spans, lo, hi, other);
    forall i, j | 0 <= i < |after| && j == i + 1 < |after| ensures !(after[i].free && after[j].free) {
      ReplaceElements(spans, lo, hi, other, i);
      ReplaceElements(spans, lo, hi, other, j);
    }
  }

  /** Replacing a stretch keeps the tiling when no free spans come to lie beside each other. */
  lemma ReplaceTiles(spans: seq<Span>, from: nat, to: nat, lo: nat, hi: nat, other: seq<Span>)
    requires Tiles(spans, from, to) && lo < hi <= |spans| && other != []
    requires Chain(other, spans[lo].begin, spans[hi - 1].End())
    requires (forall j :: 0 <= j < |other| ==> other[j].size > 0) && Coalesced(other)
    requires lo > 0 ==> !(spans[lo - 1].free && other[0].free)
    requires hi < |spans| ==> !(other[|other| - 1].free && spans[hi].free)
    ensures Tiles(Replace(spans, lo, hi, other), from, to)
  {
    hide Chain, Sized, Coalesced, Replace;
    ReplaceChain(spans, from, to, lo, hi, other);
    ReplaceSized(spans, lo, hi, other);
    ReplaceCoalesced(spans, lo, hi, other);
  }

  lemma AllocTiles(spans: seq<Span>, from: nat, to: nat, i: nat, size: nat)
    requires Tiles(spans, from, to) && i < |spans| && spans[i].free && 0 < size <= spans[i].size
    ensures Tiles(AllocLayout(spans, i, size), from, to)
  {
    var other := Taken(spans[i], size);
    assert Chain(other, spans[i].begin, spans[i].End()) by {
      if size < spans[i].size {
        assert other[1..] == [other[1]] && other[1..][1..] == [];
      } else {
        assert other[1..] == [];
      }
    }
    ReplaceTiles(spans, from, to, i, i + 1, other);
  }

  lemma FreeTiles(spans: seq<Span>, from: nat, to: nat, i: nat)
    requires Tiles(spans, from, to) && i < |spans| && !spans[i].free && spans[i].size > 0
    ensures var lo, hi := MergeLow(spans, i), MergeHigh(spans, i);
      && spans[lo].begin <= spans[i].begin < spans[i].End() <= spans[hi - 1].End()
      && (forall j :: lo <= j < hi ==> spans[j].size > 0)
      && Tiles(FreeLayout(spans, i), from, to)
  {
    var lo, hi := MergeLow(spans, i), MergeHigh(spans, i);
    if lo < i { ChainOrder(spans, from, to, lo, i); }
    if i + 1 < hi { ChainOrder(spans, from, to, i, i + 1); }
    var low, high := spans[lo].begin, spans[hi - 1].End();
    var other := [Span(low, high - low, true)];
    assert other[1..] == [];
    ReplaceTiles(spans, from, to, lo, hi, other);
  }

  lemma FreeNeighbour(spans: seq<Span>, from: nat, to: nat, i: nat)
    requires Tiles(spans, from, to) && i + 1 < |spans|
    ensures !spans[i].free || !spans[i + 1].free
  {
  }

  /** The elements of the layout after an allocation. */
  lemma AllocElements(spans: seq<Span>, i: nat, size: nat)
    requires i < |spans| && 0 < size <= spans[i].size
    ensures var after := AllocLayout(spans, i, size); var j := if size == spans[i].size then i else i + 1;
      && |after| == |spans| + (j - i) && after[..i] == spans[..i] && after[j + 1..] == spans[i + 1..]
      && after[j] == Span(spans[i].End() - size, size, false)
      && (j == i + 1 ==> after[i] == Span(spans[i].begin, spans[i].size - size, true))
      && (i > 0 ==> after[i - 1] == spans[i - 1]) && (i + 1 < |spans| ==> after[j + 1] == spans[i + 1])
  {
    var after := AllocLayout(spans, i, size);
    var j := if size == spans[i].size then i else i + 1;
    assert after[j + 1..] == spans[i + 1..];
    if i > 0 { assert after[..i][i - 1] == spans[..i][i - 1]; }
    if i + 1 < |spans| { assert after[j + 1..][0] == spans[i + 1..][0]; }
  }

  /** Freeing what was just allocated gives back the layout. */
  lemma FreeUndoesAlloc(spans: seq<Span>, from: nat, to: nat, i: nat, size: nat) returns (j: nat)
    requires Tiles(spans, from, to) && i < |spans| && spans[i].free && 0 < size <= spans[i].size
    ensures var after := AllocLayout(spans, i, size);
      && j < |after| && after[j] == Span(spans[i].End() - size, size, false)
      && after[MergeLow(after, j)].begin <= after[MergeHigh(after, j) - 1].End()
      && FreeLayout(after, j) == spans
  {
    hide Tiles, Chain;
    var s := spans[i];
    var after := AllocLayout(spans, i, size);
    j := if size == s.size then i else i + 1;
    AllocElements(spans, i, size);
    hide AllocLayout;
    if i > 0 { FreeNeighbour(spans, from, to, i - 1); }
    if i + 1 < |spans| { FreeNeighbour(spans, from, to, i); }
    assert MergeLow(after, j) == i && MergeHigh(after, j) == j + 1;
    assert after[i].begin == s.begin && after[j].End() == s.End();
    assert spans == spans[..i] + [s] + spans[i + 1..];
  }

  // ---------- alignment ----------

  ghost predicate MultipleOf(x: int, align: nat) {
    align > 0 && x % align == 0
  }

  /** Every span ends, and every used one begins, a multiple of the alignment before the end of the arena. */
  ghost predicate Aligned(spans: seq<Span>, to: nat, align: nat) {
    forall s :: s in spans ==> MultipleOf(to - s.End(), align) && (!s.free ==> MultipleOf(to - s.begin, align))
  }

  lemma AlignedSize(x: nat, k: nat, align: nat)
    requires x < U64 && k < 64 && align == Pow2(k)
    ensures 0 < align <= U64 && MultipleOf(AlignUp(x, align), align)
  {
    hide AlignUp, Pow2;
    AlignUpIs(x, k);
  }

  lemma AlignedAlloc(spans: seq<Span>, i: nat, size: nat, to: nat, align: nat)
    requires Aligned(spans, to, align) && i < |spans| && 0 < size <= spans[i].size && MultipleOf(size, align)
    ensures MultipleOf(to - (spans[i].End() - size), align)
    ensures Aligned(AllocLayout(spans, i, size), to, align)
  {
    assert spans[i] in spans;
    SumOfMultiples(to - spans[i].End(), size, align);
    hide Aligned, MultipleOf;
    AlignedReplace(spans, i, i + 1, Taken(spans[i], size), to, align);
  }

  lemma AlignedFree(spans: seq<Span>, i: nat, to: nat, align: nat)
    requires Aligned(spans, to, align) && i < |spans|
    requires spans[MergeLow(spans, i)].begin <= spans[MergeHigh(spans, i) - 1].End()
    ensures Aligned(FreeLayout(spans, i), to, align)
  {
    var lo, hi := MergeLow(spans, i), MergeHigh(spans, i);
    assert spans[hi - 1] in spans;
    AlignedReplace(spans, lo, hi, [Span(spans[lo].begin, spans[hi - 1].End() - spans[lo].begin, true)], to, align);
  }

  lemma AlignedReplace(spans: seq<Span>, lo: nat, hi: nat, other: seq<Span>, to: nat, align: nat)
    requires lo <= hi <= |spans| && Aligned(spans, to, align)
    requires forall s :: s in other ==> MultipleOf(to - s.End(), align) && (!s.free ==> MultipleOf(to - s.begin, align))
    ensures Aligned(Replace(spans, lo, hi, other), to, align)
  {
    forall s | s in Replace(spans, lo, hi, other) ensures s in spans || s in other { }
  }

  /** In an arena that ends at a multiple of the alignment, what lies a multiple of it before the end is one too. */
  lemma AlignedAddress(p: nat, to: nat, align: nat)
    requires MultipleOf(to - p, align)
    ensures MultipleOf(p, align) <==> MultipleOf(to, align)
  {
    if p % align == 0 { SumOfMultiples(p, to - p, align); }
    if to % align == 0 {
      OppositeMultiple(to - p, align);
      SumOfMultiples(to, p - to, align);
    }
  }

  lemma OppositeMultiple(a: int, d: nat)
    requires d > 0 && a % d == 0
    ensures (-a) % d == 0
  {
    assert a == d * (a / d);
    assert -a == d * (-(a / d));
    DivUnique(-a, d, -(a / d), 0);
  }

  /** The layout and the maps of a new arena. */
  lemma FirstLayout(base: nat, size: nat, align: nat, k: nat)
    requires align == Pow2(k) && k < 64
    ensures align <= U64
    ensures var spans, c := [Span(base, size, true)], Chunk(size, base);
      && Tiles(spans, base, base + size) && Sorted([c]) && Aligned(spans, base + size, align)
      && Describes(spans, [c], map[base := c], map[base + size := c], map[])
  {
    FirstMaps(base, size);
    FirstTiles(base, size, align);
    hide *;
    Pow2Of64();
    Pow2Mono(k, 64);
  }

  lemma FirstTiles(base: nat, size: nat, align: nat)
    requires align > 0
    ensures Tiles([Span(base, size, true)], base, base + size) && Aligned([Span(base, size, true)], base + size, align)
  {
    var spans := [Span(base, size, true)];
    assert spans[1..] == [];
    assert forall s :: s in spans ==> base + size - s.End() == 0;
  }

  lemma FirstMaps(base: nat, size: nat)
    ensures Sorted([Chunk(size, base)])
    ensures Describes([Span(base, size, true)], [Chunk(size, base)], map[base := Chunk(size, base)],
                      map[base + size := Chunk(size, base)], map[])
  {
    assert Span(base, size, true) in [Span(base, size, true)];
    assert Chunk(size, base) in [Chunk(size, base)];
  }

  // ---------- Arena ----------

  datatype Stats = Stats(used: nat, free: nat, total: nat, chunksUsed: nat, chunksFree: nat)

  class Arena {
    const base: nat
    const end: nat
    const alignment: nat
    var sizeToFreeChunk: seq<Chunk>
    var chunksFree: map<nat, Chunk>
    var chunksFreeEnd: map<nat, Chunk>
    var chunksUsed: map<nat, nat>
    /** The spans of the arena, by address. */
    ghost var layout: seq<Span>
    ghost const shift: nat

    /** Address 0 is the null pointer, and the alignment is a power of two. */
    ghost predicate Valid()
      reads this
    {
      && 0 < base <= end < U64
      && shift < 64 && alignment == Pow2(shift) && alignment <= U64
      && Tiles(layout, base, end)
      && Describes(layout, sizeToFreeChunk, chunksFree, chunksFreeEnd, chunksUsed)
      && Sorted(sizeToFreeChunk)
      && Aligned(layout, end, alignment)
    }

    constructor (base: nat, size: nat, alignment: nat, ghost shift: nat)
      requires base > 0 && base + size < U64 && shift < 64 && alignment == Pow2(shift)
      ensures Valid() && this.base == base && end == base + size && this.alignment == alignment
      ensures layout == [Span(base, size, true)]
    {
      hide Tiles, Describes, Sorted, Aligned, Pow2;
      FirstLayout(base, size, alignment, shift);
      this.base, end, this.alignment, this.shift := base, base + size, alignment, shift;
      var c := Chunk(size, base);
      sizeToFreeChunk := [c];
      chunksFree := map[base := c];
      chunksFreeEnd := map[base + size := c];
      chunksUsed := map[];
      layout := [Span(base, size, true)];
    }

    /**
      Takes the end of a smallest free chunk that is large enough. Null exactly when the aligned size is zero, which
      includes the case that aligning wraps around, or no free chunk is large enough.
     */
    method Alloc(request: nat) returns (p: nat, ghost i: nat)
      requires Valid() && request < U64
      modifies this
      ensures Valid()
      ensures p == 0 <==>
                AlignUp(request, alignment) == 0 || forall s :: s in old(layout) && s.free ==> s.size < AlignUp(request, alignment)
      ensures p == 0 ==> layout == old(layout)
      ensures p != 0 ==>
                var size := AlignUp(request, alignment);
                && i < |old(layout)| && old(layout)[i].free && size <= old(layout)[i].size
                && (forall s :: s in old(layout) && s.free && s.size >= size ==> old(layout)[i].size <= s.size)
                && layout == AllocLayout(old(layout), i, size)
                && p == old(layout)[i].End() - size
      ensures p != 0 ==> MultipleOf(end - p, alignment) && (MultipleOf(p, alignment) <==> MultipleOf(end, alignment))
    {
      hide AlignUp, Tiles, Describes, Sorted, AllocLayout, Aligned, Pow2, MultipleOf;
      i := 0;
      AlignedSize(request, shift, alignment);
      var size := AlignUp(request, alignment);
      if size == 0 {
        return 0, 0;
      }
      var k := LowerBound(sizeToFreeChunk, size);
      NoneFits(layout, sizeToFreeChunk, chunksFree, chunksFreeEnd, chunksUsed, size);
      if k == |sizeToFreeChunk| {
        return 0, 0;
      }
      var c := sizeToFreeChunk[k];
      i := BestFit(layout, base, end, sizeToFreeChunk, chunksFree, chunksFreeEnd, chunksUsed, size);
      if c.size == size {
        p := TakeWhole(c, i);
      } else {
        p := TakePart(c, size, i);
      }
      AlignedAddress(p, end, alignment);
    }

    method TakeWhole(c: Chunk, ghost i: nat) returns (p: nat)
      requires Valid() && i < |layout| && layout[i] == Span(c.begin, c.size, true) && c.size > 0
      requires MultipleOf(c.size, alignment)
      modifies this
      ensures Valid() && layout == AllocLayout(old(layout), i, c.size) && p == c.begin && MultipleOf(end - p, alignment)
    {
      hide Tiles, Describes, Sorted, Replace, Erase, Parts, Pow2, Aligned, MultipleOf;
      AlignedAlloc(layout, i, c.size, end, alignment);
      AllocTiles(layout, base, end, i, c.size);
      WholeUsed(layout, base, end, i, sizeToFreeChunk, chunksFree, chunksFreeEnd, chunksUsed);
      EraseSorted(sizeToFreeChunk, c);
      p := c.begin;
      chunksUsed := chunksUsed[p := c.size];
      chunksFreeEnd := chunksFreeEnd - {c.begin + c.size};
      chunksFree := chunksFree - {c.begin};
      sizeToFreeChunk := Erase(sizeToFreeChunk, c);
      layout := AllocLayout(layout, i, c.size);
    }

    method TakePart(c: Chunk, size: nat, ghost i: nat) returns (p: nat)
      requires Valid() && i < |layout| && layout[i] == Span(c.begin, c.size, true) && 0 < size < c.size
      requires MultipleOf(size, alignment)
      modifies this
      ensures Valid() && layout == AllocLayout(old(layout), i, size) && p == c.begin + c.size - size
      ensures MultipleOf(end - p, alignment)
    {
      hide Tiles, Describes, Sorted, Replace, Emplace, Erase, Parts, Pow2, Aligned, MultipleOf;
      AlignedAlloc(layout, i, size, end, alignment);
      AllocTiles(layout, base, end, i, size);
      PartUsed(layout, base, end, i, size, sizeToFreeChunk, chunksFree, chunksFreeEnd, chunksUsed);
      var remaining := c.size - size;
      var r := Chunk(remaining, c.begin);
      EmplaceSorted(sizeToFreeChunk, r);
      EraseSorted(Emplace(sizeToFreeChunk, r), c);
      p := c.begin + remaining;
      chunksUsed := chunksUsed[p := size];
      chunksFreeEnd := chunksFreeEnd - {c.begin + c.size};
      sizeToFreeChunk := Emplace(sizeToFreeChunk, r);
      chunksFree := chunksFree[c.begin := r];
      chunksFreeEnd := chunksFreeEnd[c.begin + remaining := r];
      sizeToFreeChunk := Erase(sizeToFreeChunk, c);
      layout := AllocLayout(layout, i, size);
    }

    /**
      Gives back a used chunk and merges it with its free neighbours. False, an exception in the source, for an
      address that does not begin a used chunk; giving back the null pointer does nothing.
     */
    method Free(p: nat) returns (ok: bool, ghost i: nat)
      requires Valid()
      modifies this
      ensures Valid()
      ensures ok <==> p == 0 || exists n :: Span(p, n, false) in old(layout)
      ensures p == 0 || !ok ==> layout == old(layout)
      ensures ok && p != 0 ==>
                && i < |old(layout)| && old(layout)[i].begin == p && !old(layout)[i].free
                && old(layout)[MergeLow(old(layout), i)].begin <= old(layout)[MergeHigh(old(layout), i) - 1].End()
                && layout == FreeLayout(old(layout), i)
    {
      hide Tiles, Describes, Sorted, FreeLayout, MergeLow, MergeHigh, Aligned;
      i := 0;
      if p == 0 {
        return true, 0;
      }
      UsedIff(layout, sizeToFreeChunk, chunksFree, chunksFreeEnd, chunksUsed, p);
      if p !in chunksUsed {
        return false, 0;
      }
      i := FindIn(layout, Span(p, chunksUsed[p], false));
      Release(p, i);
      ok := true;
    }

    /** The part of free after the lookup. */
    method Release(p: nat, ghost i: nat)
      requires Valid() && i < |layout| && p in chunksUsed && layout[i] == Span(p, chunksUsed[p], false)
      modifies this
      ensures Valid()
      ensures old(layout)[MergeLow(old(layout), i)].begin <= old(layout)[MergeHigh(old(layout), i) - 1].End()
      ensures layout == FreeLayout(old(layout), i)
    {
      hide Tiles, Describes, Sorted, FreeLayout, MergeLow, MergeHigh, Aligned, Pow2, SizesAfter, BeginsAfter, EndsAfter, ChunkAt;
      ReleaseResult(layout, base, end, alignment, i, sizeToFreeChunk, chunksFree, chunksFreeEnd, chunksUsed);
      ghost var low, high := layout[MergeLow(layout, i)].begin, layout[MergeHigh(layout, i) - 1].End();
      ghost var prev, next := ChunkAt(layout, MergeLow(layout, i)), ChunkAt(layout, i + 1);
      var size := chunksUsed[p];
      chunksUsed := chunksUsed - {p};
      Merge(p, size, prev, next, low, high);
      layout := FreeLayout(layout, i);
    }

    /** Joins a chunk that is given back with its free neighbours, and adds the result to the free chunks. */
    method Merge(p: nat, used: nat, ghost prev: Chunk, ghost next: Chunk, ghost low: nat, ghost high: nat)
      requires p in chunksFreeEnd ==> chunksFreeEnd[p] == prev && prev.size <= p
      requires p + used in chunksFree ==> chunksFree[p + used] == next
      requires low == if p in chunksFreeEnd then p - prev.size else p
      requires high == if p + used in chunksFree then p + used + next.size else p + used
      modifies this`sizeToFreeChunk, this`chunksFree, this`chunksFreeEnd
      ensures low <= high
      ensures sizeToFreeChunk == SizesAfter(old(sizeToFreeChunk), p in old(chunksFreeEnd), prev, p + used in old(chunksFree), next,
                                            Chunk(high - low, low))
      ensures chunksFree == BeginsAfter(old(chunksFree), p + used in old(chunksFree), p + used, Chunk(high - low, low))
      ensures chunksFreeEnd == EndsAfter(old(chunksFreeEnd), p in old(chunksFreeEnd), p, Chunk(high - low, low))
    {
      hide Emplace, Erase;
      var first, size := p, used;

      // the chunk before
      if first in chunksFreeEnd {
        var before := chunksFreeEnd[first];
        first := first - before.size;
        size := size + before.size;
        sizeToFreeChunk := Erase(sizeToFreeChunk, before);
        chunksFreeEnd := chunksFreeEnd - {p};
      }

      // the chunk after
      if first + size in chunksFree {
        var after := chunksFree[first + size];
        sizeToFreeChunk := Erase(sizeToFreeChunk, after);
        chunksFree := chunksFree - {first + size};
        size := size + after.size;
      }

      var c := Chunk(size, first);
      sizeToFreeChunk := Emplace(sizeToFreeChunk, c);
      chunksFree := chunksFree[first := c];
      chunksFreeEnd := chunksFreeEnd[first + size := c];
    }

    method GetStats() returns (r: Stats)
      requires Valid()
      ensures r.used == SizeOf(layout, false) && r.free == SizeOf(layout, true) && r.total == end - base
      ensures r.chunksUsed == |chunksUsed| && r.chunksFree == |chunksFree|
    {
      hide Tiles, Describes, Sorted;
      var used := SumUsed();
      var free := SumFree();
      SizesAddUp(layout, base, end);
      r := Stats(used, free, used + free, |chunksUsed|, |chunksFree|);
    }

    method SumUsed() returns (sum: nat)
      requires Valid()
      ensures sum == SizeOf(layout, false)
    {
      hide Tiles, Describes, Sorted, PickedSize;
      sum := 0;
      var todo := chunksUsed.Keys;
      NonePicked(layout, chunksUsed.Keys - todo, false);
      while todo != {}
        invariant todo <= chunksUsed.Keys
        invariant sum == PickedSize(layout, chunksUsed.Keys - todo, false)
        decreases todo
      {
        var b :| b in todo;
        UsedIff(layout, sizeToFreeChunk, chunksFree, chunksFreeEnd, chunksUsed, b);
        PickSpan(layout, base, end, chunksUsed.Keys - todo, Span(b, chunksUsed[b], false));
        assert chunksUsed.Keys - todo + {b} == chunksUsed.Keys - (todo - {b});
        sum := sum + chunksUsed[b];
        todo := todo - {b};
      }
      assert chunksUsed.Keys - todo == chunksUsed.Keys;
      UsedPicked(layout, sizeToFreeChunk, chunksFree, chunksFreeEnd, chunksUsed);
    }

    method SumFree() returns (sum: nat)
      requires Valid()
      ensures sum == SizeOf(layout, true)
    {
      hide Tiles, Describes, Sorted, PickedSize;
      sum := 0;
      var todo := chunksFree.Keys;
      NonePicked(layout, chunksFree.Keys - todo, true);
      while todo != {}
        invariant todo <= chunksFree.Keys
        invariant sum == PickedSize(layout, chunksFree.Keys - todo, true)
        decreases todo
      {
        var b :| b in todo;
        FreeIs(layout, sizeToFreeChunk, chunksFree, chunksFreeEnd, chunksUsed, b);
        PickSpan(layout, base, end, chunksFree.Keys - todo, Span(b, chunksFree[b].size, true));
        assert chunksFree.Keys - todo + {b} == chunksFree.Keys - (todo - {b});
        sum := sum + chunksFree[b].size;
        todo := todo - {b};
      }
      assert chunksFree.Keys - todo == chunksFree.Keys;
      FreePicked(layout, sizeToFreeChunk, chunksFree, chunksFreeEnd, chunksUsed);
    }

    /** When every chunk has been given back, the single initial free chunk is left. */
    lemma AllGivenBack()
      requires Valid() && chunksUsed == map[] && base < end
      ensures layout == [Span(base, end - base, true)]
      ensures sizeToFreeChunk == [Chunk(end - base, base)]
      ensures chunksFree == map[base := Chunk(end - base, base)] && chunksFreeEnd == map[end := Chunk(end - base, base)]
    {
      forall i | 0 <= i < |layout| ensures layout[i].free { assert layout[i] in layout; }
      NothingUsed(layout, base, end);
      var s := Span(base, end - base, true);
      var c := Chunk(end - base, base);
      assert layout == [s] && s in layout;
      assert forall x :: x in layout ==> x == s;
      assert c in sizeToFreeChunk && forall x :: x in sizeToFreeChunk ==> x == c;
      FirstTwoDiffer(sizeToFreeChunk);
      assert sizeToFreeChunk == [c];
    }
  }

  lemma FirstTwoDiffer(chunks: seq<Chunk>)
    requires Sorted(chunks)
    ensures |chunks| > 1 ==> chunks[0] != chunks[1]
  {
    if |chunks| > 1 { assert chunks[1..][0] in chunks[1..]; }
  }

  // ---------- sums of sizes ----------

  function SizeOf(spans: seq<Span>, free: bool): nat {
    if spans == [] then 0 else (if spans[0].free == free then spans[0].size else 0) + SizeOf(spans[1..], free)
  }

  /** The size of the spans that begin at one of the given addresses. */
  function PickedSize(spans: seq<Span>, keys: set<nat>, free: bool): nat {
    if spans == [] then 0
    else (if spans[0].free == free && spans[0].begin in keys then spans[0].size else 0) + PickedSize(spans[1..], keys, free)
  }

  lemma {:induction false} SizesAddUp(spans: seq<Span>, from: nat, to: nat)
    requires Tiles(spans, from, to)
    ensures SizeOf(spans, true) + SizeOf(spans, false) == to - from
  {
    ChainSizes(spans, from, to);
  }

  lemma {:induction false} ChainSizes(spans: seq<Span>, from: nat, to: nat)
    requires Chain(spans, from, to)
    ensures SizeOf(spans, true) + SizeOf(spans, false) == to - from
  {
    if spans != [] { ChainSizes(spans[1..], spans[0].End(), to); }
  }

  lemma {:induction false} NonePicked(spans: seq<Span>, keys: set<nat>, free: bool)
    requires keys == {}
    ensures PickedSize(spans, keys, free) == 0
  {
    if spans != [] { NonePicked(spans[1..], keys, free); }
  }

  lemma {:induction false} PickOne(spans: seq<Span>, keys: set<nat>, i: nat)
    requires i < |spans| && spans[i].begin !in keys
    requires forall j :: 0 <= j < |spans| && j != i ==> spans[j].begin != spans[i].begin
    ensures PickedSize(spans, keys + {spans[i].begin}, spans[i].free) == PickedSize(spans, keys, spans[i].free) + spans[i].size
  {
    var after := keys + {spans[i].begin};
    if i == 0 {
      SamePicked(spans[1..], keys, after, spans[i].free);
    } else {
      PickOne(spans[1..], keys, i - 1);
    }
  }

  lemma {:induction false} SamePicked(spans: seq<Span>, a: set<nat>, b: set<nat>, free: bool)
    requires forall j :: 0 <= j < |spans| ==> (spans[j].begin in a <==> spans[j].begin in b)
    ensures PickedSize(spans, a, free) == PickedSize(spans, b, free)
  {
    if spans != [] { SamePicked(spans[1..], a, b, free); }
  }

  lemma PickSpan(spans: seq<Span>, from: nat, to: nat, keys: set<nat>, s: Span)
    requires Tiles(spans, from, to) && s in spans && s.begin !in keys
    ensures PickedSize(spans, keys + {s.begin}, s.free) == PickedSize(spans, keys, s.free) + s.size
  {
    hide Tiles;
    var i := FindIn(spans, s);
    forall j | 0 <= j < |spans| && j != i ensures spans[j].begin != spans[i].begin {
      SpanByBegin(spans, from, to, i, j);
    }
    PickOne(spans, keys, i);
  }

  lemma {:induction false} AllPicked(spans: seq<Span>, keys: set<nat>, free: bool)
    requires forall j :: 0 <= j < |spans| && spans[j].free == free ==> spans[j].begin in keys
    ensures PickedSize(spans, keys, free) == SizeOf(spans, free)
  {
    if spans != [] { AllPicked(spans[1..], keys, free); }
  }

  lemma UsedPicked(spans: seq<Span>, sizes: seq<Chunk>, begins: map<nat, Chunk>, ends: map<nat, Chunk>, uses: map<nat, nat>)
    requires Describes(spans, sizes, begins, ends, uses)
    ensures PickedSize(spans, uses.Keys, false) == SizeOf(spans, false)
  {
    forall j | 0 <= j < |spans| && !spans[j].free ensures spans[j].begin in uses.Keys { assert spans[j] in spans; }
    AllPicked(spans, uses.Keys, false);
  }

  lemma FreePicked(spans: seq<Span>, sizes: seq<Chunk>, begins: map<nat, Chunk>, ends: map<nat, Chunk>, uses: map<nat, nat>)
    requires Describes(spans, sizes, begins, ends, uses)
    ensures PickedSize(spans, begins.Keys, true) == SizeOf(spans, true)
  {
    forall j | 0 <= j < |spans| && spans[j].free ensures spans[j].begin in begins.Keys { assert spans[j] in spans; }
    AllPicked(spans, begins.Keys, true);
  }

  lemma FreeIs(spans: seq<Span>, sizes: seq<Chunk>, begins: map<nat, Chunk>, ends: map<nat, Chunk>, uses: map<nat, nat>, b: nat)
    requires Describes(spans, sizes, begins, ends, uses) && b in begins
    ensures Span(b, begins[b].size, true) in spans
  {
  }

  lemma FreeLayoutIs(spans: seq<Span>, i: nat)
    requires i < |spans| && spans[MergeLow(spans, i)].begin <= spans[MergeHigh(spans, i) - 1].End()
    ensures var lo, hi := MergeLow(spans, i), MergeHigh(spans, i); var low, high := spans[lo].begin, spans[hi - 1].End();
      FreeLayout(spans, i) == Replace(spans, lo, hi, [Span(low, high - low, true)])
  {
  }

  lemma UsedIff(spans: seq<Span>, sizeToFree: seq<Chunk>, byBegin: map<nat, Chunk>, byEnd: map<nat, Chunk>,
                used: map<nat, nat>, p: nat)
    requires Describes(spans, sizeToFree, byBegin, byEnd, used)
    ensures p in used <==> exists n :: Span(p, n, false) in spans
    ensures p in used ==> Span(p, used[p], false) in spans
  {
  }

  lemma UsedSpan(spans: seq<Span>, from: nat, to: nat, i: nat)
    requires Tiles(spans, from, to) && i < |spans| && !spans[i].free
    ensures spans[i].size > 0
  {
  }

  /** A free chunk ends at the used span exactly when the span before it is free. */
  lemma PrevFound(spans: seq<Span>, from: nat, to: nat, i: nat, byEnd: map<nat, Chunk>, sizeToFree: seq<Chunk>,
                  byBegin: map<nat, Chunk>, used: map<nat, nat>)
    requires Tiles(spans, from, to) && Describes(spans, sizeToFree, byBegin, byEnd, used)
    requires i < |spans| && !spans[i].free
    ensures spans[i].begin in byEnd <==> MergeLow(spans, i) < i
    ensures spans[i].begin in byEnd ==> i > 0 && byEnd[spans[i].begin] == Chunk(spans[i - 1].size, spans[i - 1].begin)
  {
    if spans[i].begin in byEnd {
      var c := byEnd[spans[i].begin];
      var j := FindIn(spans, Span(c.begin, c.size, true));
      SpanByBegin(spans, from, to, j, i);
    }
    if MergeLow(spans, i) < i {
      TilesInside(spans, from, to, i);
      assert spans[i - 1] in spans;
    }
  }

  /** A free chunk begins where the used span ends exactly when the span after it is free. */
  lemma NextFound(spans: seq<Span>, from: nat, to: nat, i: nat, byEnd: map<nat, Chunk>, sizeToFree: seq<Chunk>,
                  byBegin: map<nat, Chunk>, used: map<nat, nat>)
    requires Tiles(spans, from, to) && Describes(spans, sizeToFree, byBegin, byEnd, used)
    requires i < |spans| && !spans[i].free
    ensures spans[i].End() in byBegin <==> i + 1 < MergeHigh(spans, i)
    ensures spans[i].End() in byBegin ==>
              i + 1 < |spans| && byBegin[spans[i].End()] == Chunk(spans[i + 1].size, spans[i + 1].begin)
  {
    if spans[i].End() in byBegin {
      var c := byBegin[spans[i].End()];
      var j := FindIn(spans, Span(c.begin, c.size, true));
      SpanByBegin(spans, from, to, i, j);
    }
    if i + 1 < MergeHigh(spans, i) {
      TilesInside(spans, from, to, i + 1);
      assert spans[i + 1] in spans;
    }
  }

  /** The spans meeting the addresses [low, high) are span i and its free neighbours. */
  ghost predicate StretchOf(spans: seq<Span>, i: nat, low: nat, high: nat)
    requires i < |spans|
  {
    var lo, hi := MergeLow(spans, i), MergeHigh(spans, i);
    && low == spans[lo].begin && high == spans[hi - 1].End()
    && low <= spans[i].begin < spans[i].End() <= high
    && (lo < i ==> low < spans[lo].End() == spans[i].begin)
    && (i + 1 < hi ==> spans[i].End() == spans[i + 1].begin < high)
    && forall x :: x in spans ==>
         Outside(x, low, high) || x == spans[i] || (lo < i && x == spans[lo]) || (i + 1 < hi && x == spans[i + 1])
  }

  lemma Stretch(spans: seq<Span>, from: nat, to: nat, i: nat)
    requires Tiles(spans, from, to) && i < |spans| && !spans[i].free
    ensures StretchOf(spans, i, spans[MergeLow(spans, i)].begin, spans[MergeHigh(spans, i) - 1].End())
  {
    var lo, hi := MergeLow(spans, i), MergeHigh(spans, i);
    var low, high := spans[lo].begin, spans[hi - 1].End();
    UsedSpan(spans, from, to, i);
    if lo < i { ChainOrder(spans, from, to, lo, i); }
    if i + 1 < hi { ChainOrder(spans, from, to, i, i + 1); }
    forall x: Span | x in spans
      ensures Outside(x, low, high) || x == spans[i] || (lo < i && x == spans[lo]) || (i + 1 < hi && x == spans[i + 1])
    {
      ReplaceMembers(spans, from, to, lo, hi, [], x);
      if x in spans[lo..hi] {
        var j :| 0 <= j < hi - lo && spans[lo..hi][j] == x;
        assert spans[lo + j] == x;
      }
    }
  }

  function EraseIf(chunks: seq<Chunk>, present: bool, c: Chunk): seq<Chunk> {
    if present then Erase(chunks, c) else chunks
  }

  function ChunkAt(spans: seq<Span>, j: nat): Chunk {
    if j < |spans| then Chunk(spans[j].size, spans[j].begin) else Chunk(0, 0)
  }

  /** The index of sizes after the neighbours are removed and the merged chunk is added. */
  function SizesAfter(sizes: seq<Chunk>, hasPrev: bool, prev: Chunk, hasNext: bool, next: Chunk, c: Chunk): seq<Chunk> {
    Emplace(EraseIf(EraseIf(sizes, hasPrev, prev), hasNext, next), c)
  }

  function BeginsAfter(begins: map<nat, Chunk>, hasNext: bool, at: nat, c: Chunk): map<nat, Chunk> {
    (if hasNext then begins - {at} else begins)[c.begin := c]
  }

  function EndsAfter(ends: map<nat, Chunk>, hasPrev: bool, at: nat, c: Chunk): map<nat, Chunk> {
    (if hasPrev then ends - {at} else ends)[c.begin + c.size := c]
  }

  lemma ReleasedSizes(sizes: seq<Chunk>, hasPrev: bool, prev: Chunk, hasNext: bool, next: Chunk, low: nat, high: nat)
    requires Sorted(sizes) && low < high
    requires forall x :: x in sizes && low <= x.begin < high ==> (hasPrev && x == prev) || (hasNext && x == next)
    requires hasPrev ==> low <= prev.begin < high && prev.size < high - low
    requires hasNext ==> low <= next.begin < high && next.size < high - low
    ensures var r := SizesAfter(sizes, hasPrev, prev, hasNext, next, Chunk(high - low, low));
      Sorted(r) && SizesFreed(sizes, r, low, high)
  {
    EraseSorted(sizes, prev);
    EraseSorted(EraseIf(sizes, hasPrev, prev), next);
    EmplaceSorted(EraseIf(EraseIf(sizes, hasPrev, prev), hasNext, next), Chunk(high - low, low));
  }

  lemma ReleasedBegins(begins: map<nat, Chunk>, hasPrev: bool, hasNext: bool, at: nat, low: nat, high: nat)
    requires low < high && (hasNext ==> low <= at < high)
    requires forall b :: b in begins && low <= b < high ==> (hasPrev && b == low) || (hasNext && b == at)
    ensures BeginsFreed(begins, BeginsAfter(begins, hasNext, at, Chunk(high - low, low)), low, high)
  {
  }

  lemma ReleasedEnds(ends: map<nat, Chunk>, hasPrev: bool, hasNext: bool, at: nat, low: nat, high: nat)
    requires low < high && (hasPrev ==> low < at <= high)
    requires forall e :: e in ends && low < e <= high ==> (hasPrev && e == at) || (hasNext && e == high)
    ensures EndsFreed(ends, EndsAfter(ends, hasPrev, at, Chunk(high - low, low)), low, high)
  {
  }

  lemma ReleasedUsed(uses: map<nat, nat>, at: nat, low: nat, high: nat)
    requires low <= at < high && forall b :: b in uses && low <= b < high ==> b == at
    ensures UsedFreed(uses, uses - {at}, low, high)
  {
  }

  /** Inside the stretch, the maps hold only the span and its free neighbours. */
  lemma StretchSizes(spans: seq<Span>, i: nat, low: nat, high: nat, sizes: seq<Chunk>)
    requires i < |spans| && !spans[i].free && StretchOf(spans, i, low, high) && SizesDescribe(spans, sizes)
    ensures forall x :: x in sizes && low <= x.begin < high ==>
              || (MergeLow(spans, i) < i && x == ChunkAt(spans, MergeLow(spans, i)))
              || (i + 1 < MergeHigh(spans, i) && x == ChunkAt(spans, i + 1))
  {
    forall x | x in sizes && low <= x.begin < high
      ensures || (MergeLow(spans, i) < i && x == ChunkAt(spans, MergeLow(spans, i)))
              || (i + 1 < MergeHigh(spans, i) && x == ChunkAt(spans, i + 1))
    {
      assert Span(x.begin, x.size, true) in spans;
    }
  }

  lemma StretchBegins(spans: seq<Span>, i: nat, low: nat, high: nat, begins: map<nat, Chunk>)
    requires i < |spans| && !spans[i].free && StretchOf(spans, i, low, high) && BeginsDescribe(spans, begins)
    ensures forall b :: b in begins && low <= b < high ==>
              (MergeLow(spans, i) < i && b == low) || (i + 1 < MergeHigh(spans, i) && b == spans[i].End())
  {
  }

  lemma StretchEnds(spans: seq<Span>, i: nat, low: nat, high: nat, ends: map<nat, Chunk>)
    requires i < |spans| && !spans[i].free && StretchOf(spans, i, low, high) && EndsDescribe(spans, ends)
    ensures forall e :: e in ends && low < e <= high ==>
              (MergeLow(spans, i) < i && e == spans[i].begin) || (i + 1 < MergeHigh(spans, i) && e == high)
  {
  }

  lemma StretchUsed(spans: seq<Span>, i: nat, low: nat, high: nat, uses: map<nat, nat>)
    requires i < |spans| && !spans[i].free && StretchOf(spans, i, low, high) && UsedDescribes(spans, uses)
    ensures forall b :: b in uses && low <= b < high ==> b == spans[i].begin
  {
    forall b | b in uses && low <= b < high ensures b == spans[i].begin {
      assert Span(b, uses[b], false) in spans;
    }
  }

  /** The neighbours, from the stretch. */
  lemma StretchEdges(spans: seq<Span>, i: nat, low: nat, high: nat)
    requires i < |spans| && StretchOf(spans, i, low, high)
    ensures low <= spans[i].begin < spans[i].End() <= high && spans[i].End() == spans[i].begin + spans[i].size
    ensures low == spans[MergeLow(spans, i)].begin && high == spans[MergeHigh(spans, i) - 1].End()
    ensures if MergeLow(spans, i) < i
            then i > 0 && ChunkAt(spans, MergeLow(spans, i)) == Chunk(spans[i].begin - low, low) == ChunkAt(spans, i - 1)
              && low < spans[i].begin
            else low == spans[i].begin
    ensures if i + 1 < MergeHigh(spans, i)
            then ChunkAt(spans, i + 1) == Chunk(high - spans[i].End(), spans[i].End()) && spans[i].End() < high
            else high == spans[i].End()
  {
  }

  /** The maps and the layout after span i, whose stretch is [low, high), is released. */
  lemma Released(spans: seq<Span>, from: nat, to: nat, i: nat, low: nat, high: nat, sizes: seq<Chunk>,
                 begins: map<nat, Chunk>, ends: map<nat, Chunk>, uses: map<nat, nat>,
                 hasPrev: bool, hasNext: bool, c: Chunk)
    requires Tiles(spans, from, to) && Describes(spans, sizes, begins, ends, uses) && Sorted(sizes)
    requires i < |spans| && !spans[i].free && low <= high && StretchOf(spans, i, low, high)
    requires hasPrev == (MergeLow(spans, i) < i) && hasNext == (i + 1 < MergeHigh(spans, i)) && c == Chunk(high - low, low)
    ensures Sorted(SizesAfter(sizes, hasPrev, ChunkAt(spans, MergeLow(spans, i)), hasNext, ChunkAt(spans, i + 1), c))
    ensures Describes(Replace(spans, MergeLow(spans, i), MergeHigh(spans, i), [Span(low, high - low, true)]),
                      SizesAfter(sizes, hasPrev, ChunkAt(spans, MergeLow(spans, i)), hasNext, ChunkAt(spans, i + 1), c),
                      BeginsAfter(begins, hasNext, spans[i].End(), c), EndsAfter(ends, hasPrev, spans[i].begin, c),
                      uses - {spans[i].begin})
  {
    hide *;
    var prev, next := ChunkAt(spans, MergeLow(spans, i)), ChunkAt(spans, i + 1);
    UsedSpan(spans, from, to, i);
    FreeTiles(spans, from, to, i);
    DescribesParts(spans, sizes, begins, ends, uses);
    StretchEdges(spans, i, low, high);
    StretchSizes(spans, i, low, high, sizes);
    StretchBegins(spans, i, low, high, begins);
    StretchEnds(spans, i, low, high, ends);
    StretchUsed(spans, i, low, high, uses);
    ReleasedSizes(sizes, hasPrev, prev, hasNext, next, low, high);
    ReleasedBegins(begins, hasPrev, hasNext, spans[i].End(), low, high);
    ReleasedEnds(ends, hasPrev, hasNext, spans[i].begin, low, high);
    ReleasedUsed(uses, spans[i].begin, low, high);
    Freed(spans, from, to, MergeLow(spans, i), MergeHigh(spans, i), low, high, sizes, begins, ends, uses,
          SizesAfter(sizes, hasPrev, prev, hasNext, next, c), BeginsAfter(begins, hasNext, spans[i].End(), c),
          EndsAfter(ends, hasPrev, spans[i].begin, c), uses - {spans[i].begin});
  }

  /** What the lookups of the neighbours find when used span i is released, and the state it leads to. */
  lemma ReleaseResult(spans: seq<Span>, from: nat, to: nat, align: nat, i: nat, sizes: seq<Chunk>,
                      begins: map<nat, Chunk>, ends: map<nat, Chunk>, uses: map<nat, nat>)
    requires Tiles(spans, from, to) && Describes(spans, sizes, begins, ends, uses) && Sorted(sizes) && Aligned(spans, to, align)
    requires i < |spans| && !spans[i].free
    ensures spans[MergeLow(spans, i)].begin <= spans[MergeHigh(spans, i) - 1].End()
    ensures var low, high := spans[MergeLow(spans, i)].begin, spans[MergeHigh(spans, i) - 1].End();
      var prev, next := ChunkAt(spans, MergeLow(spans, i)), ChunkAt(spans, i + 1);
      var p, after, c := spans[i].begin, spans[i].End(), Chunk(high - low, low);
      && (p in ends ==> ends[p] == prev && prev.size <= p) && (after in begins ==> begins[after] == next)
      && low == (if p in ends then p - prev.size else p) && high == (if after in begins then after + next.size else after)
      && Tiles(FreeLayout(spans, i), from, to) && Aligned(FreeLayout(spans, i), to, align)
      && Sorted(SizesAfter(sizes, p in ends, prev, after in begins, next, c))
      && Describes(FreeLayout(spans, i), SizesAfter(sizes, p in ends, prev, after in begins, next, c),
                   BeginsAfter(begins, after in begins, after, c), EndsAfter(ends, p in ends, p, c), uses - {p})
  {
    hide *;
    UsedSpan(spans, from, to, i);
    FreeTiles(spans, from, to, i);
    Stretch(spans, from, to, i);
    var low, high := spans[MergeLow(spans, i)].begin, spans[MergeHigh(spans, i) - 1].End();
    StretchEdges(spans, i, low, high);
    PrevFound(spans, from, to, i, ends, sizes, begins, uses);
    NextFound(spans, from, to, i, ends, sizes, begins, uses);
    if i > 0 { PlaceOf(spans, i - 1); }
    if i + 1 < |spans| { PlaceOf(spans, i + 1); }
    Released(spans, from, to, i, low, high, sizes, begins, ends, uses,
             MergeLow(spans, i) < i, i + 1 < MergeHigh(spans, i), Chunk(high - low, low));
    FreeLayoutIs(spans, i);
    AlignedFree(spans, i, to, align);
  }

  lemma PlaceOf(spans: seq<Span>, j: nat)
    requires j < |spans|
    ensures ChunkAt(spans, j) == Chunk(spans[j].size, spans[j].begin)
  {
  }

  lemma DescribesParts(spans: seq<Span>, sizes: seq<Chunk>, begins: map<nat, Chunk>, ends: map<nat, Chunk>, uses: map<nat, nat>)
    requires Describes(spans, sizes, begins, ends, uses)
    ensures SizesDescribe(spans, sizes) && BeginsDescribe(spans, begins) && EndsDescribe(spans, ends) && UsedDescribes(spans, uses)
  {
  }

  /** The first chunk that is not too small does not exist exactly when every free span is too small. */
  lemma NoneFits(spans: seq<Span>, sizeToFree: seq<Chunk>, byBegin: map<nat, Chunk>, byEnd: map<nat, Chunk>,
                 used: map<nat, nat>, size: nat)
    requires Describes(spans, sizeToFree, byBegin, byEnd, used)
    ensures LowerBound(sizeToFree, size) == |sizeToFree| <==> forall s :: s in spans && s.free ==> s.size < size
  {
    var k := LowerBound(sizeToFree, size);
    if k < |sizeToFree| {
      var c := sizeToFree[k];
      assert c in sizeToFree;
      assert Span(c.begin, c.size, true) in spans;
    } else {
      forall s | s in spans && s.free ensures s.size < size {
        assert Chunk(s.size, s.begin) in sizeToFree;
      }
    }
  }

  /** The first chunk that is not too small is a free span of the layout, and a smallest one that is large enough. */
  lemma BestFit(spans: seq<Span>, from: nat, to: nat, sizeToFree: seq<Chunk>, byBegin: map<nat, Chunk>,
                byEnd: map<nat, Chunk>, used: map<nat, nat>, size: nat) returns (i: nat)
    requires Tiles(spans, from, to) && Describes(spans, sizeToFree, byBegin, byEnd, used) && Sorted(sizeToFree)
    requires LowerBound(sizeToFree, size) < |sizeToFree|
    ensures var c := sizeToFree[LowerBound(sizeToFree, size)];
      && i < |spans| && spans[i] == Span(c.begin, c.size, true) && size <= c.size && from <= c.begin
      && forall s :: s in spans && s.free && s.size >= size ==> c.size <= s.size
  {
    var k := LowerBound(sizeToFree, size);
    var c := sizeToFree[k];
    assert c in sizeToFree;
    i := FindIn(spans, Span(c.begin, c.size, true));
    TilesInside(spans, from, to, i);
    forall s | s in spans && s.free && s.size >= size ensures c.size <= s.size {
      var x := Chunk(s.size, s.begin);
      var j :| 0 <= j < |sizeToFree| && sizeToFree[j] == x;
      SortedOrder(sizeToFree, k, j);
    }
  }

  ghost function FindIn(spans: seq<Span>, x: Span): (i: nat)
    requires x in spans
    ensures i < |spans| && spans[i] == x
  {
    if spans[0] == x then 0 else FindIn(spans[1..], x) + 1
  }
}
