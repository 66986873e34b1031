/** DER-encoded ECDSA signatures: the strict parser, the serializer, and the lax parser. */
module Der {
  import opened Bits
  import opened Arith
  import opened Ecdsa
  import opened Wrappers
  import opened ByteStrings

  // ---------- big-endian numbers ----------

  /** The number's bytes, without leading zeros. */
  function Bytes(v: nat): (b: seq<Byte>)
    ensures b == [] <==> v == 0
    ensures b != [] ==> b[0] != 0
  {
    if v == 0 then [] else Bytes(v / 256) + [v % 256]
  }

  lemma {:induction false} BytesValue(v: nat)
    ensures FromBigEndian(Bytes(v)) == v
  {
    if v > 0 {
      BytesValue(v / 256);
      assert Bytes(v)[..|Bytes(v)| - 1] == Bytes(v / 256);
    }
  }

  /** Bytes that do not start with a zero are those of their value. */
  lemma {:induction false} ValueBytes(b: seq<Byte>)
    requires b != [] ==> b[0] != 0
    ensures Bytes(FromBigEndian(b)) == b
  {
    if b != [] {
      var init, last := b[..|b| - 1], b[|b| - 1];
      ValueBytes(init);
      assert b == init + [last];
      AddMultiple(FromBigEndian(init), 256, last);
    }
  }

  lemma {:induction false} LeadingZero(b: seq<Byte>)
    requires b != [] && b[0] == 0
    ensures FromBigEndian(b) == FromBigEndian(b[1..])
  {
    if |b| > 1 {
      LeadingZero(b[..|b| - 1]);
      assert b[..|b| - 1][1..] == b[1..][..|b[1..]| - 1];
    }
  }

  lemma {:induction false} ValueAtLeast(b: seq<Byte>)
    requires b != [] && b[0] != 0
    ensures FromBigEndian(b) >= Pow256(|b| - 1)
  {
    if |b| > 1 { ValueAtLeast(b[..|b| - 1]); }
  }

  lemma {:induction false} Pow256Mono(a: nat, b: nat)
    requires a <= b
    ensures Pow256(a) <= Pow256(b)
  {
    if a < b { Pow256Mono(a, b - 1); }
  }

  lemma NextByte(b: seq<Byte>, i: nat)
    requires i < |b|
    ensures FromBigEndian(b[..i + 1]) == 256 * FromBigEndian(b[..i]) + b[i]
  {
    assert b[..i + 1][..i] == b[..i];
  }

  lemma {:induction false} PrefixAtMost(b: seq<Byte>, i: nat)
    requires i <= |b|
    ensures FromBigEndian(b[..i]) <= FromBigEndian(b)
    decreases |b| - i
  {
    if i == |b| {
      assert b[..i] == b;
    } else {
      NextByte(b, i);
      PrefixAtMost(b, i + 1);
    }
  }

  /** Scalars have at most 32 bytes. */
  lemma OrderBelow()
    ensures ORDER < Pow256(32)
  {
    Pow256Of4();
    hide Pow256;
    Pow256Of(4, 4);
    Pow256Of(8, 8);
    Pow256Of(16, 16);
  }

  // ---------- lengths ----------

  /** The octets of a length, from its first one. */
  function LenSize(first: Byte): (size: nat)
    ensures size >= 1
  {
    if first < 0x80 then 1 else first - 0x7F
  }

  function LenOf(rest: seq<Byte>): nat
    requires rest != [] && LenSize(rest[0]) <= |rest|
  {
    if rest[0] < 0x80 then rest[0] else FromBigEndian(rest[1..LenSize(rest[0])])
  }

  /** Section 8.1.3 of X.690: a definite length in the fewest octets; a long one is not more than what follows. */
  ghost predicate LenOk(rest: seq<Byte>) {
    && rest != [] && LenSize(rest[0]) <= |rest| && rest[0] != 0x80 && rest[0] != 0xFF
    && (rest[0] >= 0x80 ==> rest[1] != 0 && 128 <= LenOf(rest) <= |rest| - LenSize(rest[0]))
  }

  function LenOctets(len: nat): seq<nat> {
    if len < 128 then [len] else [0x80 + |Bytes(len)|] + Bytes(len)
  }

  /** A length is accepted in one encoding only. */
  lemma LenCanonical(rest: seq<Byte>)
    requires LenOk(rest)
    ensures rest[..LenSize(rest[0])] == LenOctets(LenOf(rest))
  {
    var size := LenSize(rest[0]);
    if rest[0] >= 0x80 {
      ValueBytes(rest[1..size]);
      assert rest[..size] == [rest[0]] + rest[1..size];
    }
  }

  /** The length at pos, and the position after it. */
  method ReadLen(sig: seq<Byte>, pos: nat) returns (r: Option<nat>, next: nat)
    requires pos <= |sig| < 0x8000_0000
    ensures r.Some? <==> LenOk(sig[pos..])
    ensures r.Some? ==> r.value == LenOf(sig[pos..]) && next == pos + LenSize(sig[pos])
  {
    next := pos;
    if pos >= |sig| {
      return None, next;
    }
    var b1 := sig[pos];
    next := pos + 1;
    if b1 == 0xFF {
      return None, next;
    }
    if b1 < 0x80 {
      return Some(b1), next;
    }
    if b1 == 0x80 {
      return None, next;
    }
    var lenleft := b1 - 0x80;
    if lenleft > |sig| - next {
      return None, next;
    }
    if sig[next] == 0 {
      return None, next;
    }
    ghost var octets := sig[pos + 1..pos + LenSize(b1)];
    assert sig[pos..][1..LenSize(b1)] == octets;
    LongLength(octets, |sig|);
    if lenleft > 8 {
      return None, next;
    }
    var ret: nat := 0;
    while lenleft > 0
      invariant 0 <= lenleft <= |octets| && next == pos + 1 + (|octets| - lenleft)
      invariant ret == FromBigEndian(octets[..|octets| - lenleft])
      invariant lenleft < |octets| ==> ret <= |sig| - next - lenleft
    {
      NextByte(octets, |octets| - lenleft);
      PrefixAtMost(octets, |octets| - lenleft + 1);
      ret := 256 * ret + sig[next];
      if ret + lenleft > |sig| - next {
        return None, next;
      }
      next := next + 1;
      lenleft := lenleft - 1;
    }
    assert octets[..|octets|] == octets;
    if ret < 128 {
      return None, next;
    }
    r := Some(ret);
  }

  /** More than 8 octets are more than any size. */
  lemma LongLength(octets: seq<Byte>, size: nat)
    requires octets != [] && octets[0] != 0 && size < 0x8000_0000
    ensures |octets| > 8 ==> FromBigEndian(octets) > size
  {
    ValueAtLeast(octets);
    if |octets| > 8 {
      Pow256Mono(4, |octets| - 1);
      assert Pow256(4) == 0x1_0000_0000;
    }
  }

  // ---------- integers ----------

  /** Section 8.3 of X.690: at least one octet, and the first nine bits are not all equal. */
  ghost predicate Shortest(c: seq<Byte>) {
    c != [] && (|c| > 1 ==> !(c[0] == 0 && c[1] < 0x80) && !(c[0] == 0xFF && c[1] >= 0x80))
  }

  /** The octets of a number that is not negative. */
  function IntOctets(v: nat): (c: seq<Byte>)
    ensures c != []
  {
    if v == 0 || Bytes(v)[0] >= 0x80 then [0] + Bytes(v) else Bytes(v)
  }

  lemma IntOctetsShortest(v: nat)
    ensures Shortest(IntOctets(v)) && IntOctets(v)[0] < 0x80 && FromBigEndian(IntOctets(v)) == v
  {
    BytesValue(v);
    if IntOctets(v)[0] == 0 {
      LeadingZero(IntOctets(v));
      assert IntOctets(v)[1..] == Bytes(v);
    }
  }

  /** An integer that is not negative is accepted in one encoding only. */
  lemma IntCanonical(c: seq<Byte>)
    requires Shortest(c) && c[0] < 0x80
    ensures c == IntOctets(FromBigEndian(c))
  {
    if c[0] == 0 {
      LeadingZero(c);
      ValueBytes(c[1..]);
      assert c == [0] + c[1..];
      assert |c| == 1 ==> c[1..] == [];
    } else {
      ValueBytes(c);
    }
  }

  lemma IntOctetsSize(v: nat)
    requires v < ORDER
    ensures |IntOctets(v)| <= 33
  {
    OrderBelow();
    BytesValue(v);
    if |Bytes(v)| > 32 {
      ValueAtLeast(Bytes(v));
      Pow256Mono(32, |Bytes(v)| - 1);
    }
  }

  /** A tagged integer at the front: its length and its contents fit. */
  ghost predicate HasInt(rest: seq<Byte>) {
    && rest != [] && rest[0] == 0x02 && rest[1..] != [] && LenSize(rest[1]) <= |rest| - 1
    && IntSize(rest) <= |rest|
  }

  function IntSize(rest: seq<Byte>): nat
    requires |rest| > 1 && LenSize(rest[1]) <= |rest| - 1
  {
    1 + LenSize(rest[1]) + LenOf(rest[1..])
  }

  function IntContent(rest: seq<Byte>): seq<Byte>
    requires |rest| > 1 && LenSize(rest[1]) <= |rest| - 1 && IntSize(rest) <= |rest|
  {
    rest[1 + LenSize(rest[1])..IntSize(rest)]
  }

  ghost predicate IntOk(rest: seq<Byte>) {
    HasInt(rest) && LenOk(rest[1..]) && Shortest(IntContent(rest))
  }

  /** The scalar of an integer's octets; none for one that is negative or not below the order. */
  ghost function ScalarOf(c: seq<Byte>): Option<nat> {
    if c != [] && c[0] < 0x80 && FromBigEndian(c) < ORDER then Some(FromBigEndian(c)) else None
  }

  /** Skips leading zero bytes. */
  method SkipLeading(input: seq<Byte>, start: nat, end: nat) returns (pos: nat)
    requires start <= end <= |input|
    ensures start <= pos <= end && FromBigEndian(input[pos..end]) == FromBigEndian(input[start..end])
    ensures pos < end ==> input[pos] != 0
  {
    hide FromBigEndian;
    pos := start;
    while pos < end && input[pos] == 0
      invariant start <= pos <= end && FromBigEndian(input[pos..end]) == FromBigEndian(input[start..end])
    {
      LeadingZero(input[pos..end]);
      assert input[pos..end][1..] == input[pos + 1..end];
      pos := pos + 1;
    }
  }

  /** The scalar at pos, or zero with overflow set, and the position after it. */
  method ParseInteger(sig: seq<Byte>, pos: nat) returns (ok: bool, next: nat, r: nat, overflow: bool)
    requires pos <= |sig| < 0x8000_0000
    ensures ok <==> IntOk(sig[pos..])
    ensures ok ==> next == pos + IntSize(sig[pos..]) <= |sig|
    ensures ok ==> overflow == ScalarOf(IntContent(sig[pos..])).None?
    ensures ok ==> r == if overflow then 0 else FromBigEndian(IntContent(sig[pos..]))
  {
    hide FromBigEndian, LenOk, Pow256;
    next, r, overflow := pos, 0, false;
    if pos == |sig| || sig[pos] != 0x02 {
      return false, next, r, overflow;
    }
    next := pos + 1;
    assert sig[pos..][1..] == sig[pos + 1..];
    var rlen: Option<nat>;
    rlen, next := ReadLen(sig, next);
    LenOkFits(sig[pos + 1..]);
    if rlen.None? || rlen.value == 0 || next + rlen.value > |sig| {
      return false, next, r, overflow;
    }
    ghost var c := sig[next..next + rlen.value];
    assert sig[pos..][next - pos..next - pos + rlen.value] == c;
    assert c == IntContent(sig[pos..]);
    if sig[next] == 0x00 && rlen.value > 1 && sig[next + 1] < 0x80 {
      return false, next, r, overflow;
    }
    if sig[next] == 0xFF && rlen.value > 1 && sig[next + 1] >= 0x80 {
      return false, next, r, overflow;
    }
    if sig[next] >= 0x80 {
      overflow := true;
    }
    var end := next + rlen.value;
    next := SkipLeading(sig, next, end);
    StrippedSize(sig[next..end]);
    if end - next > 32 {
      overflow := true;
    }
    if !overflow {
      r, overflow := SetB32(Padded32(sig[next..end]));
      PaddedValue(sig[next..end]);
    }
    if overflow {
      r := 0;
    }
    next := end;
    ok := true;
  }

  lemma LenOkFits(rest: seq<Byte>)
    ensures LenOk(rest) ==> rest != [] && LenSize(rest[0]) <= |rest|
  {
  }

  /** Digits that do not start with a zero and are more than 32 are not below the order. */
  lemma StrippedSize(digits: seq<Byte>)
    ensures |digits| > 32 && digits[0] != 0 ==> FromBigEndian(digits) >= ORDER
  {
    OrderBelow();
    if |digits| > 32 && digits[0] != 0 {
      ValueAtLeast(digits);
      Pow256Mono(32, |digits| - 1);
    }
  }

  /** Up to 32 bytes at the end of a buffer of 32 zeros. */
  function Padded32(b: seq<Byte>): (buffer: seq<Byte>)
    requires |b| <= 32
    ensures |buffer| == 32
  {
    seq(32 - |b|, _ => 0) + b
  }

  lemma PaddedValue(b: seq<Byte>)
    requires |b| <= 32
    ensures FromBigEndian(Padded32(b)) == FromBigEndian(b)
  {
    ZerosBefore(32 - |b|, b);
  }

  lemma {:induction false} ZerosBefore(k: nat, b: seq<Byte>)
    ensures FromBigEndian(seq(k, _ => 0) + b) == FromBigEndian(b)
  {
    var zeros: seq<Byte> := seq(k, _ => 0);
    if k == 0 {
      assert zeros + b == b;
    } else {
      LeadingZero(zeros + b);
      var fewer: seq<Byte> := seq(k - 1, _ => 0);
      assert (zeros + b)[1..] == fewer + b;
      ZerosBefore(k - 1, b);
    }
  }

  /** The scalar of 32 bytes, reduced when it is not below the order. */
  method SetB32(buffer: seq<Byte>) returns (r: nat, overflow: bool)
    requires |buffer| == 32
    ensures overflow == (FromBigEndian(buffer) >= ORDER)
    ensures r < ORDER && (!overflow ==> r == FromBigEndian(buffer))
  {
    var v := FromBigEndian(buffer);
    overflow := v >= ORDER;
    r := v % ORDER;
    Multiple(v, ORDER);
  }

  // ---------- signatures ----------

  /** What follows the sequence's tag and length. */
  function Body(sig: seq<Byte>): seq<Byte>
    requires |sig| > 1 && LenSize(sig[1]) <= |sig| - 1
  {
    sig[1 + LenSize(sig[1])..]
  }

  /** A sequence of two integers, and nothing else. */
  ghost predicate SigOk(sig: seq<Byte>) {
    && HasSequence(sig) && LenOk(sig[1..]) && LenOf(sig[1..]) == |Body(sig)|
    && IntOk(Body(sig)) && IntOk(AfterFirst(Body(sig)))
    && IntSize(AfterFirst(Body(sig))) == |AfterFirst(Body(sig))|
  }

  ghost predicate HasSequence(sig: seq<Byte>) {
    sig != [] && sig[0] == 0x30 && sig[1..] != [] && LenSize(sig[1]) <= |sig| - 1
  }

  function AfterFirst(body: seq<Byte>): seq<Byte>
    requires |body| > 1 && LenSize(body[1]) <= |body| - 1 && IntSize(body) <= |body|
  {
    body[IntSize(body)..]
  }

  function ContentR(sig: seq<Byte>): seq<Byte>
    requires HasSequence(sig) && HasInt(Body(sig))
  {
    IntContent(Body(sig))
  }

  function ContentS(sig: seq<Byte>): seq<Byte>
    requires HasSequence(sig) && HasInt(Body(sig)) && HasInt(AfterFirst(Body(sig)))
  {
    IntContent(AfterFirst(Body(sig)))
  }

  /** The sequence is of these two scalars. */
  ghost predicate Holds(sig: seq<Byte>, r: nat, s: nat) {
    SigOk(sig) && ScalarOf(ContentR(sig)) == Some(r) && ScalarOf(ContentS(sig)) == Some(s)
  }

  /** A scalar read, or zero if it overflowed. */
  datatype Parsed = Parsed(r: nat, overflow: bool)

  ghost predicate ParsedFrom(p: Parsed, c: seq<Byte>) {
    c != [] && p == match ScalarOf(c) case Some(v) => Parsed(v, false) case None => Parsed(0, true)
  }

  method SigParse(sig: seq<Byte>) returns (ok: bool, r: Parsed, s: Parsed)
    requires |sig| < 0x8000_0000
    ensures ok <==> SigOk(sig)
    ensures ok ==> ParsedFrom(r, ContentR(sig)) && ParsedFrom(s, ContentS(sig))
  {
    hide LenOk, LenOf, LenSize, FromBigEndian, ScalarOf, Shortest;
    r, s := Parsed(0, false), Parsed(0, false);
    if sig == [] || sig[0] != 0x30 {
      return false, r, s;
    }
    var rlen, pos := ReadLen(sig, 1);
    LenOkFits(sig[1..]);
    if rlen.None? || pos + rlen.value > |sig| {
      return false, r, s;
    }
    if pos + rlen.value != |sig| {
      return false, r, s;
    }
    assert sig[pos..] == Body(sig);
    var v, overflow;
    ok, pos, v, overflow := ParseInteger(sig, pos);
    if !ok {
      return;
    }
    r := Parsed(v, overflow);
    ParsedIs(v, overflow, ContentR(sig));
    assert sig[pos..] == AfterFirst(Body(sig));
    ok, pos, v, overflow := ParseInteger(sig, pos);
    if !ok {
      return;
    }
    s := Parsed(v, overflow);
    ParsedIs(v, overflow, ContentS(sig));
    ok := pos == |sig|;
  }

  lemma ParsedIs(v: nat, overflow: bool, c: seq<Byte>)
    requires Shortest(c) && overflow == ScalarOf(c).None? && v == if overflow then 0 else FromBigEndian(c)
    ensures ParsedFrom(Parsed(v, overflow), c)
  {
  }

  // ---------- serializing ----------

  function IntText(v: nat): seq<nat> {
    [0x02, |IntOctets(v)|] + IntOctets(v)
  }

  /** The signature's encoding. */
  function Serialized(r: nat, s: nat): seq<nat> {
    [0x30, |IntText(r)| + |IntText(s)|] + IntText(r) + IntText(s)
  }

  /**
    The encoding, spelled out: a sequence of two integers, each with a tag, the number of its octets and its octets,
    which are the fewest whose first bit is zero.
   */
  lemma SerializedIs(r: nat, s: nat) returns (a: seq<Byte>, b: seq<Byte>)
    requires r < ORDER && s < ORDER
    ensures Serialized(r, s) == [0x30, 4 + |a| + |b|, 0x02, |a|] + a + [0x02, |b|] + b
    ensures a != [] && a[0] < 0x80 && (|a| > 1 && a[0] == 0 ==> a[1] >= 0x80) && FromBigEndian(a) == r
    ensures b != [] && b[0] < 0x80 && (|b| > 1 && b[0] == 0 ==> b[1] >= 0x80) && FromBigEndian(b) == s
  {
    hide FromBigEndian, IntOctets;
    a, b := IntOctets(r), IntOctets(s);
    IntOctetsShortest(r);
    IntOctetsShortest(s);
  }

  /** A long length, and signatures of small numbers. */
  lemma KnownEncodings()
    ensures LenOctets(127) == [0x7F] && LenOctets(128) == [0x81, 0x80] && LenOctets(0x1234) == [0x82, 0x12, 0x34]
    ensures Serialized(1, 0x80) == [0x30, 0x07, 0x02, 0x01, 0x01, 0x02, 0x02, 0x00, 0x80]
    ensures Serialized(0, 0x1234) == [0x30, 0x07, 0x02, 0x01, 0x00, 0x02, 0x02, 0x12, 0x34]
  {
  }

  /** Drops zeros in front of an octet below 128. */
  method SkipZeros(b: seq<Byte>) returns (start: nat)
    requires b != [] && b[0] == 0
    ensures start < |b| && b[start..] == IntOctets(FromBigEndian(b))
  {
    hide FromBigEndian, IntOctets;
    start := 0;
    assert b[0..] == b;
    while |b| - start > 1 && b[start] == 0 && b[start + 1] < 0x80
      invariant start < |b| && FromBigEndian(b[start..]) == FromBigEndian(b) && b[start] < 0x80
    {
      LeadingZero(b[start..]);
      assert b[start..][1..] == b[start + 1..];
      start := start + 1;
    }
    IntCanonical(b[start..]);
  }

  /** Writes the encoding, when there is room for it. */
  method SigSerialize(size: nat, r: nat, s: nat) returns (ok: bool, needed: nat, sig: seq<Byte>)
    requires r < ORDER && s < ORDER
    ensures needed == |Serialized(r, s)| && (ok <==> needed <= size)
    ensures ok ==> sig == Serialized(r, s)
  {
    hide IntOctets, FromBigEndian, Pow256;
    OrderBelow();
    var rBuffer: seq<Byte> := [0] + BigEndian(r, 32);
    var sBuffer: seq<Byte> := [0] + BigEndian(s, 32);
    BufferValue(r);
    BufferValue(s);
    var rp := SkipZeros(rBuffer);
    var sp := SkipZeros(sBuffer);
    var lenR, lenS := |rBuffer| - rp, |sBuffer| - sp;
    assert lenR == |IntOctets(r)| && lenS == |IntOctets(s)|;
    IntOctetsSize(r);
    IntOctetsSize(s);
    needed := 6 + lenS + lenR;
    if size < needed {
      return false, needed, [];
    }
    sig := [0x30, 4 + lenS + lenR, 0x02, lenR] + rBuffer[rp..] + [0x02, lenS] + sBuffer[sp..];
    ok := true;
  }

  lemma BufferValue(v: nat)
    requires v < Pow256(32)
    ensures FromBigEndian([0] + BigEndian(v, 32)) == v
  {
    var buffer: seq<Byte> := [0] + BigEndian(v, 32);
    LeadingZero(buffer);
    assert buffer[1..] == BigEndian(v, 32);
    BigEndianRoundTrip(v, 32);
  }

  // ---------- the strict parser accepts one encoding of each signature ----------

  /** An integer with a short length is its own text. */
  lemma IntIsText(rest: seq<Byte>)
    requires IntOk(rest) && ScalarOf(IntContent(rest)).Some?
    ensures var v := ScalarOf(IntContent(rest)).value; v < ORDER && rest[..IntSize(rest)] == IntText(v)
  {
    var c := IntContent(rest);
    IntCanonical(c);
    IntOctetsSize(FromBigEndian(c));
    LenCanonical(rest[1..]);
    hide FromBigEndian, IntOctets;
    assert |c| == LenOf(rest[1..]) < 128;
    assert rest[..IntSize(rest)] == [rest[0], rest[1]] + c;
  }

  lemma IntOkHas(rest: seq<Byte>)
    requires IntOk(rest)
    ensures HasInt(rest)
  {
  }

  lemma ShortSequence(sig: seq<Byte>)
    requires HasSequence(sig) && LenOk(sig[1..]) && LenOf(sig[1..]) == |Body(sig)| < 128
    ensures sig == [0x30, |Body(sig)|] + Body(sig)
  {
    LenCanonical(sig[1..]);
    hide FromBigEndian;
    assert LenSize(sig[1]) == 1 && sig[1] == LenOf(sig[1..]);
  }

  lemma SequenceOf(body: seq<Byte>, sig: seq<Byte>)
    requires |body| < 128 && sig == [0x30, |body|] + body
    ensures HasSequence(sig) && LenOk(sig[1..]) && LenOf(sig[1..]) == |body| && Body(sig) == body
  {
  }

  lemma ParsedIsSerialized(sig: seq<Byte>, r: nat, s: nat)
    requires Holds(sig, r, s)
    ensures sig == Serialized(r, s)
  {
    hide FromBigEndian, IntOctets, ScalarOf, IntOk, IntContent, LenOk, LenOf, LenSize, IntSize;
    var body := Body(sig);
    IntOkHas(body);
    var second := AfterFirst(body);
    IntOkHas(second);
    IntIsText(body);
    IntIsText(second);
    IntOctetsSize(r);
    IntOctetsSize(s);
    assert second[..IntSize(second)] == second;
    assert body == IntText(r) + IntText(s);
    ShortSequence(sig);
  }

  lemma ShortLen(rest: seq<Byte>)
    requires rest != [] && rest[0] < 0x80
    ensures LenOk(rest) && LenSize(rest[0]) == 1 && LenOf(rest) == rest[0]
  {
  }

  lemma TextIsInt(v: nat, rest: seq<Byte>, after: seq<Byte>)
    requires v < ORDER && rest == IntText(v) + after
    ensures IntOk(rest) && IntSize(rest) == |IntText(v)| && IntContent(rest) == IntOctets(v)
    ensures ScalarOf(IntContent(rest)) == Some(v)
  {
    IntOctetsShortest(v);
    IntOctetsSize(v);
    hide FromBigEndian, IntOctets, LenOk, LenOf, LenSize, Shortest;
    var c := IntOctets(v);
    assert rest[0] == 0x02 && rest[1..][0] == rest[1] == |c| && rest[2..2 + |c|] == c;
    ShortLen(rest[1..]);
  }

  lemma TwoTexts(r: nat, s: nat, body: seq<Byte>)
    requires r < ORDER && s < ORDER && body == IntText(r) + IntText(s)
    ensures |body| < 128 && IntOk(body) && HasInt(body)
    ensures var second := AfterFirst(body); IntOk(second) && HasInt(second) && IntSize(second) == |second|
    ensures ScalarOf(IntContent(body)) == Some(r) && ScalarOf(IntContent(AfterFirst(body))) == Some(s)
  {
    hide FromBigEndian, IntOctets, ScalarOf, IntOk, IntContent, LenOk, LenOf, LenSize, IntSize, Shortest;
    IntOctetsSize(r);
    IntOctetsSize(s);
    TextIsInt(r, body, IntText(s));
    IntOkHas(body);
    assert AfterFirst(body) == IntText(s) == IntText(s) + [];
    TextIsInt(s, AfterFirst(body), []);
    IntOkHas(AfterFirst(body));
  }

  lemma SerializedParses(r: nat, s: nat, sig: seq<Byte>)
    requires r < ORDER && s < ORDER && sig == Serialized(r, s)
    ensures Holds(sig, r, s)
  {
    hide IntText, ScalarOf, IntOk, IntContent, LenOk, LenOf, LenSize, IntSize, HasInt;
    var body: seq<Byte> := sig[2..];
    assert body == IntText(r) + IntText(s) && sig == [0x30, |body|] + body;
    TwoTexts(r, s, body);
    SequenceOf(body, sig);
  }

  /** An input is accepted as (r, s), neither negative nor overflowed, exactly when it is their encoding. */
  lemma CanonicalIff(sig: seq<Byte>, r: nat, s: nat)
    requires r < ORDER && s < ORDER
    ensures Holds(sig, r, s) <==> sig == Serialized(r, s)
  {
    hide Holds, Serialized;
    if sig == Serialized(r, s) {
      SerializedParses(r, s, sig);
    } else if Holds(sig, r, s) {
      ParsedIsSerialized(sig, r, s);
    }
  }

  // ---------- the lax parser ----------

  /** A length in any number of octets, up to 8 without leading zeros, that is not more than what follows. */
  method LaxLen(input: seq<Byte>, pos: nat) returns (r: Option<nat>, next: nat)
    requires pos <= |input| < 0x100_0000_0000_0000
    ensures r.Some? <==> pos < |input| && var rest := input[pos..];
      LenSize(rest[0]) <= |rest| && LenOf(rest) <= |rest| - LenSize(rest[0])
    ensures r.Some? ==> r.value == LenOf(input[pos..]) && next == pos + LenSize(input[pos])
  {
    hide FromBigEndian, Pow256;
    next := pos;
    if pos == |input| {
      return None, next;
    }
    var lenbyte: nat := input[pos];
    next := pos + 1;
    var len: nat := 0;
    if lenbyte >= 0x80 {
      lenbyte := lenbyte - 0x80;
      if next + lenbyte > |input| {
        return None, next;
      }
      ghost var octets := input[next..next + lenbyte];
      assert input[pos..][1..LenSize(input[pos])] == octets;
      var first := SkipLeading(input, next, next + lenbyte);
      lenbyte := lenbyte - (first - next);
      next := first;
      ghost var digits := input[next..next + lenbyte];
      EightOctets(digits);
      if lenbyte >= 8 {
        return None, next;
      }
      NoValue();
      assert digits[..0] == [];
      while lenbyte > 0
        invariant 0 <= lenbyte <= |digits| && next == pos + LenSize(input[pos]) - lenbyte
        invariant len == FromBigEndian(digits[..|digits| - lenbyte])
      {
        NextByte(digits, |digits| - lenbyte);
        len := 256 * len + input[next];
        next := next + 1;
        lenbyte := lenbyte - 1;
      }
      assert digits[..|digits|] == digits;
    } else {
      len := lenbyte;
    }
    if len > |input| - next {
      return None, next;
    }
    r := Some(len);
  }

  lemma NoValue()
    ensures FromBigEndian([]) == 0
  {
  }

  lemma EightOctets(digits: seq<Byte>)
    ensures |digits| >= 8 && digits[0] != 0 ==> FromBigEndian(digits) >= 0x100_0000_0000_0000
  {
    if |digits| >= 8 && digits[0] != 0 {
      ValueAtLeast(digits);
      Pow256Mono(7, |digits| - 1);
      assert Pow256(7) == 0x100_0000_0000_0000;
    }
  }

  /** Where an integer's contents are, and the position after it. */
  method LaxInteger(input: seq<Byte>, pos: nat) returns (ok: bool, start: nat, next: nat)
    requires pos <= |input| < 0x100_0000_0000_0000
    ensures ok <==> HasInt(input[pos..])
    ensures ok ==> start <= next <= |input| && next == pos + IntSize(input[pos..])
    ensures ok ==> input[start..next] == IntContent(input[pos..])
  {
    hide LenOf, LenSize;
    start, next := pos, pos;
    if pos == |input| || input[pos] != 0x02 {
      return false, start, next;
    }
    assert input[pos..][1..] == input[pos + 1..];
    var len;
    len, start := LaxLen(input, pos + 1);
    if len.None? {
      return false, start, next;
    }
    next := start + len.value;
    assert input[pos..][start - pos..next - pos] == input[start..next];
    ok := true;
  }

  /** The value's bytes at the end of a buffer of 32, unless they are more. */
  method LaxCopy(input: seq<Byte>, start: nat, end: nat) returns (fits: bool, buffer: seq<Byte>)
    requires start <= end <= |input|
    ensures |buffer| == 32
    ensures if fits then FromBigEndian(buffer) == FromBigEndian(input[start..end]) else FromBigEndian(input[start..end]) >= ORDER
  {
    hide FromBigEndian, Padded32;
    var pos := SkipLeading(input, start, end);
    StrippedSize(input[pos..end]);
    if end - pos > 32 {
      return false, Padded32([]);
    }
    PaddedValue(input[pos..end]);
    return true, Padded32(input[pos..end]);
  }

  /** Both scalars, or zeros when one is not below the order. */
  method ParseCompact(r32: seq<Byte>, s32: seq<Byte>) returns (ok: bool, r: nat, s: nat)
    requires |r32| == |s32| == 32
    ensures ok <==> FromBigEndian(r32) < ORDER && FromBigEndian(s32) < ORDER
    ensures r == (if ok then FromBigEndian(r32) else 0) && s == (if ok then FromBigEndian(s32) else 0)
  {
    var overflow;
    r, overflow := SetB32(r32);
    ok := !overflow;
    s, overflow := SetB32(s32);
    ok := ok && !overflow;
    if !ok {
      r, s := 0, 0;
    }
  }

  /** Two integers after the sequence's header; its length, and anything after the integers, do not matter. */
  ghost predicate LaxOk(input: seq<Byte>) {
    HasSequence(input) && HasInt(Body(input)) && HasInt(AfterFirst(Body(input)))
  }

  /** A length in one octet below 128, or in as many octets as the first one says. */
  ghost predicate IsLength(l: seq<Byte>, n: nat) {
    && l != []
    && if l[0] < 0x80 then |l| == 1 && n == l[0] else |l| == 1 + (l[0] - 0x80) && n == FromBigEndian(l[1..])
  }

  ghost predicate IsInt(text: seq<Byte>, l: seq<Byte>, content: seq<Byte>) {
    IsLength(l, |content|) && text == [0x02] + l + content
  }

  /** What the lax parser takes: a sequence with any length octets, two integers, and anything after them. */
  ghost predicate LaxParts(input: seq<Byte>, header: seq<Byte>, first: seq<Byte>, second: seq<Byte>, rest: seq<Byte>) {
    && input == [0x30] + header + (first + (second + rest))
    && header != [] && |header| == if header[0] < 0x80 then 1 else 1 + (header[0] - 0x80)
  }

  lemma IntParts(body: seq<Byte>) returns (l: seq<Byte>)
    requires HasInt(body)
    ensures IsInt(body[..IntSize(body)], l, IntContent(body))
  {
    hide FromBigEndian;
    l := body[1..1 + LenSize(body[1])];
    assert l[1..] == body[1..][1..LenSize(body[1])];
  }

  lemma IntFrom(body: seq<Byte>, text: seq<Byte>, l: seq<Byte>, content: seq<Byte>, after: seq<Byte>)
    requires IsInt(text, l, content) && body == text + after
    ensures HasInt(body) && IntSize(body) == |text| && IntContent(body) == content && body[IntSize(body)..] == after
  {
    hide FromBigEndian;
    assert body[1..][..|l|] == l;
    assert body[1..][1..|l|] == l[1..];
  }

  /** Such inputs are accepted, and the integers' octets are those of the two scalars. */
  lemma LaxFromParts(input: seq<Byte>, header: seq<Byte>, first: seq<Byte>, a: seq<Byte>, second: seq<Byte>, b: seq<Byte>, rest: seq<Byte>,
               la: seq<Byte>, lb: seq<Byte>)
    ensures LaxParts(input, header, first, second, rest) && IsInt(first, la, a) && IsInt(second, lb, b) ==>
              LaxOk(input) && ContentR(input) == a && ContentS(input) == b
  {
    hide IsInt, IntSize, IntContent, FromBigEndian;
    if LaxParts(input, header, first, second, rest) && IsInt(first, la, a) && IsInt(second, lb, b) {
      var body := first + (second + rest);
      assert HasSequence(input) && Body(input) == body by { assert input[1] == header[0]; }
      IntFrom(body, first, la, a, second + rest);
      IntFrom(second + rest, second, lb, b, rest);
      assert AfterFirst(body) == second + rest;
    }
  }

  /** No others are. */
  lemma LaxHasParts(input: seq<Byte>)
    returns (header: seq<Byte>, first: seq<Byte>, second: seq<Byte>, rest: seq<Byte>, la: seq<Byte>, lb: seq<Byte>)
    requires LaxOk(input)
    ensures LaxParts(input, header, first, second, rest)
    ensures IsInt(first, la, ContentR(input)) && IsInt(second, lb, ContentS(input))
  {
    hide IsInt, IntContent, FromBigEndian;
    var body := Body(input);
    var after := AfterFirst(body);
    header := input[1..1 + LenSize(input[1])];
    first, second, rest := body[..IntSize(body)], after[..IntSize(after)], after[IntSize(after)..];
    la := IntParts(body);
    lb := IntParts(after);
    assert body == first + after && after == second + rest;
  }

  method LaxParse(input: seq<Byte>) returns (ok: bool, r: nat, s: nat)
    requires |input| < 0x100_0000_0000_0000
    ensures ok <==> LaxOk(input)
    ensures ok ==> var vr, vs := FromBigEndian(ContentR(input)), FromBigEndian(ContentS(input));
      if vr < ORDER && vs < ORDER then r == vr && s == vs else r == s == 0
  {
    hide LenOf, FromBigEndian;
    r, s := 0, 0;
    if input == [] || input[0] != 0x30 {
      return false, r, s;
    }
    if |input| == 1 {
      return false, r, s;
    }
    var pos: nat := 2;
    if input[1] >= 0x80 {
      var lenbyte := input[1] - 0x80;
      if pos + lenbyte > |input| {
        return false, r, s;
      }
      pos := pos + lenbyte;
    }
    assert input[pos..] == Body(input);
    var rStart, sStart, rEnd, sEnd;
    ok, rStart, rEnd := LaxInteger(input, pos);
    if !ok {
      return;
    }
    assert input[rEnd..] == AfterFirst(Body(input));
    ok, sStart, sEnd := LaxInteger(input, rEnd);
    if !ok {
      return;
    }
    var rFits, r32 := LaxCopy(input, rStart, rEnd);
    var sFits, s32 := LaxCopy(input, sStart, sEnd);
    if rFits && sFits {
      var below;
      below, r, s := ParseCompact(r32, s32);
    }
  }

  /** What the strict parser accepts, the lax one accepts. */
  lemma StrictIsLax(sig: seq<Byte>)
    requires SigOk(sig)
    ensures LaxOk(sig)
  {
    IntOkHas(Body(sig));
    IntOkHas(AfterFirst(Body(sig)));
  }

  /** What the strict parser accepts without overflow, the lax one reads as the same scalars, and it is their only encoding. */
  method BothParsers(sig: seq<Byte>) returns (strict: bool, r: Parsed, s: Parsed, lax: bool, laxR: nat, laxS: nat)
    requires |sig| < 0x8000_0000
    ensures strict ==> lax
    ensures strict && !r.overflow && !s.overflow ==> laxR == r.r && laxS == s.r && sig == Serialized(r.r, s.r)
  {
    hide Serialized, SigOk, LaxOk, ContentR, ContentS, FromBigEndian;
    strict, r, s := SigParse(sig);
    lax, laxR, laxS := LaxParse(sig);
    if strict {
      StrictIsLax(sig);
      if !r.overflow && !s.overflow { CanonicalIff(sig, r.r, s.r); }
    }
  }

  /** Every signature written is read back by both parsers. */
  method WriteThenRead(r: nat, s: nat, size: nat) returns (ok: bool, strict: Parsed, strictS: Parsed, laxR: nat, laxS: nat)
    requires r < ORDER && s < ORDER
    ensures ok <==> size >= |Serialized(r, s)|
    ensures ok ==> strict == Parsed(r, false) && strictS == Parsed(s, false) && laxR == r && laxS == s
  {
    hide Serialized, SigOk, LaxOk, ContentR, ContentS, FromBigEndian;
    var needed, sig, accepted;
    strict, strictS, laxR, laxS := Parsed(0, true), Parsed(0, true), 0, 0;
    ok, needed, sig := SigSerialize(size, r, s);
    if ok {
      SerializedSize(r, s);
      SerializedParses(r, s, sig);
      HoldsIs(sig, r, s);
      accepted, strict, strictS := SigParse(sig);
      accepted, laxR, laxS := LaxParse(sig);
    }
  }

  lemma SerializedSize(r: nat, s: nat)
    requires r < ORDER && s < ORDER
    ensures |Serialized(r, s)| <= 72
  {
    IntOctetsSize(r);
    IntOctetsSize(s);
  }

  lemma HoldsIs(sig: seq<Byte>, r: nat, s: nat)
    requires Holds(sig, r, s)
    ensures SigOk(sig) && LaxOk(sig) && ScalarOf(ContentR(sig)) == Some(r) && ScalarOf(ContentS(sig)) == Some(s)
  {
    StrictIsLax(sig);
  }
}
