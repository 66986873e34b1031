/** ConvertBits, and Base64 and Base32 on top of it. */
module BaseTexts {
  import opened Bits
  import opened BitStreams

  // ---------- lists of bits ----------

  /** Masking with m ones keeps the m low bits. */
  lemma {:induction false} MaskedBits(x: nat, m: nat, n: nat)
    requires n <= m
    ensures ToBits(And(x, Ones(m)), n) == ToBits(x, n)
  {
    if n > 0 {
      HalvesOfAnd(x, Ones(m));
      HalfOfOnes(m);
      MaskedBits(x / 2, m - 1, n - 1);
    }
  }

  lemma {:induction false} MaskBound(x: nat, m: nat)
    ensures And(x, Ones(m)) < Pow2(m)
  {
    if m > 0 {
      HalvesOfAnd(x, Ones(m));
      HalfOfOnes(m);
      MaskBound(x / 2, m - 1);
    }
  }

  /** Shifting in v appends its bits. */
  lemma {:induction false} ShiftedIn(acc: nat, v: nat, n: nat, k: nat)
    requires v < Pow2(k)
    ensures ToBits(Or(Shl(acc, k), v), n + k) == ToBits(acc, n) + ToBits(v, k)
  {
    if k == 0 {
      OrZero(acc);
    } else {
      HalvesOfOr(Shl(acc, k), v);
      ShiftedIn(acc, v / 2, n, k - 1);
    }
  }

  lemma {:induction false} ZeroBits(k: nat)
    ensures ToBits(0, k) == Zeros(k)
  {
    if k > 0 {
      ZeroBits(k - 1);
      assert Zeros(k) == Zeros(k - 1) + [false];
    }
  }

  lemma ZeroIff(w: nat, n: nat)
    requires w < Pow2(n)
    ensures w == 0 <==> ToBits(w, n) == Zeros(n)
  {
    ZeroBits(n);
    FromToBits(w, n);
    FromZeros(n);
    Arith.Multiple(w, Pow2(n));
  }

  lemma JoinAppend(words: seq<nat>, w: nat, n: nat)
    ensures Join(words + [w], n) == Join(words, n) + ToBits(w, n)
  {
    assert (words + [w])[..|words + [w]| - 1] == words;
  }

  ghost predicate Below(words: seq<nat>, n: nat) {
    forall i :: 0 <= i < |words| ==> words[i] < Pow2(n)
  }

  lemma {:induction false} JoinInjective(a: seq<nat>, b: seq<nat>, n: nat)
    requires n > 0 && Below(a, n) && Below(b, n) && Join(a, n) == Join(b, n)
    ensures a == b
  {
    SameCount(|a|, |b|, n);
    if a != [] {
      var k := |a| - 1;
      assert Join(a, n)[..n * k] == Join(a[..k], n) && Join(a, n)[n * k..] == ToBits(a[k], n);
      assert Join(b, n)[..n * k] == Join(b[..k], n) && Join(b, n)[n * k..] == ToBits(b[k], n);
      JoinInjective(a[..k], b[..k], n);
      SameWord(a[k], b[k], n);
      assert a == a[..k] + [a[k]] && b == b[..k] + [b[k]];
    }
  }

  lemma SameCount(a: nat, b: nat, n: nat)
    requires n > 0 && n * a == n * b
    ensures a == b
  {
    Arith.Cancel(a, b, n);
  }

  lemma SameWord(v: nat, w: nat, n: nat)
    requires v < Pow2(n) && w < Pow2(n) && ToBits(v, n) == ToBits(w, n)
    ensures v == w
  {
    FromToBits(v, n);
    FromToBits(w, n);
    Arith.Multiple(v, Pow2(n));
    Arith.Multiple(w, Pow2(n));
  }

  // ---------- ConvertBits ----------

  /** Words of `to` bits hold a list of bits: all of it, filled up with fewer than `to` zeros. */
  ghost predicate Padded(words: seq<nat>, to: nat, bits: seq<bool>) {
    && |bits| <= |Join(words, to)| < |bits| + to
    && Join(words, to) == bits + Zeros(|Join(words, to)| - |bits|)
  }

  /** Words of `to` bits hold all but the last few bits of a list. */
  ghost predicate Truncated(words: seq<nat>, to: nat, bits: seq<bool>) {
    && |Join(words, to)| <= |bits| < |Join(words, to)| + to
    && Join(words, to) == bits[..|Join(words, to)|]
  }

  /** What is cut off is less than one of the words given, and zero. */
  ghost predicate NothingLost(words: seq<nat>, to: nat, bits: seq<bool>, from: nat)
  {
    var kept := |Join(words, to)|;
    kept <= |bits| < kept + from && bits[kept..] == Zeros(|bits| - kept)
  }

  /** The words so far and the bits low bits of acc are the words read. */
  ghost predicate Pending(input: seq<nat>, from: nat, output: seq<nat>, to: nat, acc: nat, bits: nat) {
    Join(input, from) == Join(output, to) + ToBits(acc, bits)
  }

  /** From words of `from` bits to words of `to` bits. */
  method ConvertBits(from: nat, to: nat, pad: bool, input: seq<nat>) returns (ok: bool, output: seq<nat>)
    requires 0 < from <= 8 && 0 < to <= 8 && Below(input, from)
    ensures Below(output, to)
    ensures pad ==> ok && Padded(output, to, Join(input, from))
    ensures !pad ==> Truncated(output, to, Join(input, from)) && (ok <==> NothingLost(output, to, Join(input, from), from))
  {
    hide And, Or, Shl, Shr, Ones, Pow2, Join, Padded, Truncated, NothingLost, Pending, ToBits;
    var acc: nat, bits: nat := 0, 0;
    output := [];
    NothingPending(from, to);
    assert input[..0] == [];
    for i := 0 to |input|
      invariant bits < to && Below(output, to) && Pending(input[..i], from, output, to, acc, bits)
    {
      Absorb(input, i, from, output, to, acc, bits);
      acc := And(Or(Shl(acc, from), input[i]), Ones(from + to - 1));
      bits := bits + from;
      while bits >= to
        invariant 0 <= bits && Below(output, to) && Pending(input[..i + 1], from, output, to, acc, bits)
      {
        Emit(input[..i + 1], from, output, to, acc, bits - to);
        bits := bits - to;
        output := output + [And(Shr(acc, bits), Ones(to))];
      }
    }
    assert input[..|input|] == input;
    var last := And(Shl(acc, to - bits), Ones(to));
    if pad {
      FillUp(input, from, output, to, acc, bits);
      if bits > 0 {
        output := output + [last];
      }
      ok := true;
    } else {
      CutOff(input, from, output, to, acc, bits);
      ok := !(bits >= from || last != 0);
    }
  }

  lemma NothingPending(from: nat, to: nat)
    ensures Pending([], from, [], to, 0, 0)
  {
  }

  lemma Absorb(input: seq<nat>, i: nat, from: nat, output: seq<nat>, to: nat, acc: nat, bits: nat)
    requires i < |input| && Below(input, from) && bits < to && Pending(input[..i], from, output, to, acc, bits)
    ensures Pending(input[..i + 1], from, output, to, And(Or(Shl(acc, from), input[i]), Ones(from + to - 1)), bits + from)
  {
    hide And, Or, Shl, Ones, Pow2, Join, ToBits;
    JoinAppend(input[..i], input[i], from);
    assert input[..i] + [input[i]] == input[..i + 1];
    ShiftedIn(acc, input[i], bits, from);
    MaskedBits(Or(Shl(acc, from), input[i]), from + to - 1, bits + from);
    assert (Join(output, to) + ToBits(acc, bits)) + ToBits(input[i], from)
        == Join(output, to) + (ToBits(acc, bits) + ToBits(input[i], from));
  }

  lemma Emit(read: seq<nat>, from: nat, output: seq<nat>, to: nat, acc: nat, bits: nat)
    requires Below(output, to) && Pending(read, from, output, to, acc, bits + to)
    ensures Pending(read, from, output + [And(Shr(acc, bits), Ones(to))], to, acc, bits)
    ensures Below(output + [And(Shr(acc, bits), Ones(to))], to)
  {
    hide And, Shr, Ones, Pow2, Join, ToBits;
    var w := And(Shr(acc, bits), Ones(to));
    JoinAppend(output, w, to);
    ToBitsSplit(acc, to, bits);
    MaskedBits(Shr(acc, bits), to, to);
    MaskBound(Shr(acc, bits), to);
    assert Join(output, to) + (ToBits(w, to) + ToBits(acc, bits)) == Join(output + [w], to) + ToBits(acc, bits);
  }

  /** The last word, with the bits that remain at its top. */
  lemma LastWord(acc: nat, bits: nat, to: nat)
    requires bits <= to
    ensures var last := And(Shl(acc, to - bits), Ones(to));
      ToBits(last, to) == ToBits(acc, bits) + Zeros(to - bits) && last < Pow2(to)
  {
    hide And, Ones, Or, Shl, ToBits;
    var k := to - bits;
    MaskedBits(Shl(acc, k), to, to);
    MaskBound(Shl(acc, k), to);
    OrZero(Shl(acc, k));
    ShiftedIn(acc, 0, bits, k);
    ZeroBits(k);
  }

  lemma FillUp(input: seq<nat>, from: nat, output: seq<nat>, to: nat, acc: nat, bits: nat)
    requires bits < to && Below(output, to) && Pending(input, from, output, to, acc, bits)
    ensures bits == 0 ==> Padded(output, to, Join(input, from))
    ensures var last := And(Shl(acc, to - bits), Ones(to));
      Below(output + [last], to) && (bits > 0 ==> Padded(output + [last], to, Join(input, from)))
  {
    hide And, Shl, Ones, Join, ToBits, Zeros;
    var last := And(Shl(acc, to - bits), Ones(to));
    LastWord(acc, bits, to);
    JoinAppend(output, last, to);
    assert (Join(output, to) + ToBits(acc, bits)) + Zeros(to - bits) == Join(output, to) + (ToBits(acc, bits) + Zeros(to - bits));
    if bits == 0 { assert Join(output, to) + Zeros(0) == Join(output, to) + ToBits(acc, 0) == Join(output, to); }
  }

  lemma CutOff(input: seq<nat>, from: nat, output: seq<nat>, to: nat, acc: nat, bits: nat)
    requires bits < to && Pending(input, from, output, to, acc, bits)
    ensures Truncated(output, to, Join(input, from))
    ensures var last := And(Shl(acc, to - bits), Ones(to));
      NothingLost(output, to, Join(input, from), from) <==> bits < from && last == 0
  {
    hide And, Shl, Ones, Join, ToBits, Zeros;
    var stream, head := Join(input, from), Join(output, to);
    assert stream[..|head|] == head && stream[|head|..] == ToBits(acc, bits);
    var last := And(Shl(acc, to - bits), Ones(to));
    LastWord(acc, bits, to);
    ZeroIff(last, to);
    ZerosSplit(bits, to - bits);
    assert (ToBits(acc, bits) + Zeros(to - bits))[..bits] == ToBits(acc, bits);
    assert Zeros(to)[..bits] == Zeros(bits);
  }

  lemma ZerosSplit(a: nat, b: nat)
    ensures Zeros(a + b) == Zeros(a) + Zeros(b)
  {
  }

  // ---------- the texts ----------

  datatype Base = Base64 | Base32 {
    /** The bits of a character. */
    function Width(): nat {
      if Base64? then 6 else 5
    }

    /** The characters of a whole number of bytes. */
    function Group(): nat {
      if Base64? then 4 else 8
    }

    /** The alphabet: A-Z, a-z, 0-9, + and /, or a-z and 2-7. */
    function EncodeDigit(v: nat): char
      requires v < Pow2(Width())
    {
      PowersSmall();
      if Base32? then (if v < 26 then Letter('a', v) else Letter('2', v - 26))
      else if v < 26 then Letter('A', v)
      else if v < 52 then Letter('a', v - 26)
      else if v < 62 then Letter('0', v - 52)
      else if v == 62 then '+' else '/'
    }

    /** The decoding table, -1 for characters without a value; Base32 takes letters of either case. */
    function DecodeDigit(ch: char): int {
      if Base32? then
        if 'A' <= ch <= 'Z' then ch as int - 'A' as int
        else if 'a' <= ch <= 'z' then ch as int - 'a' as int
        else if '2' <= ch <= '7' then ch as int - '2' as int + 26
        else -1
      else if 'A' <= ch <= 'Z' then ch as int - 'A' as int
      else if 'a' <= ch <= 'z' then ch as int - 'a' as int + 26
      else if '0' <= ch <= '9' then ch as int - '0' as int + 52
      else if ch == '+' then 62
      else if ch == '/' then 63
      else -1
    }

    /** The character in the case of the alphabet. */
    function Fold(ch: char): char {
      if Base32? && 'A' <= ch <= 'Z' then Letter('a', ch as int - 'A' as int) else ch
    }
  }

  const UPPER := "ABCDEFGHIJKLMNOPQRSTUVWXYZ"
  const LOWER := "abcdefghijklmnopqrstuvwxyz"
  const DIGITS := "0123456789"
  const FEW_DIGITS := "234567"

  /** The alphabets of sections 4 and 6 of RFC 4648, the latter in lower case and in upper case. */
  const BASE64 := UPPER + LOWER + DIGITS + "+/"
  const BASE32 := LOWER + FEW_DIGITS
  const BASE32_UPPER := UPPER + FEW_DIGITS

  /** The digit's character in the alphabet, which for Base32 may also be in upper case when it is read. */
  ghost predicate Spells(base: Base, ch: char, v: nat) {
    match base
    case Base64 => v < 64 && |BASE64| == 64 && ch == BASE64[v]
    case Base32 => v < 32 && |BASE32| == |BASE32_UPPER| == 32 && (ch == BASE32[v] || ch == BASE32_UPPER[v])
  }

  lemma Runs(i: nat)
    ensures |UPPER| == |LOWER| == 26 && |DIGITS| == 10 && |FEW_DIGITS| == 6
    ensures i < 26 ==> UPPER[i] == Letter('A', i) && LOWER[i] == Letter('a', i)
    ensures i < 10 ==> DIGITS[i] == Letter('0', i)
    ensures i < 6 ==> FEW_DIGITS[i] == Letter('2', i)
  {
  }

  lemma Base64At(v: nat)
    requires v < 64
    ensures |BASE64| == 64
    ensures BASE64[v] == if v < 26 then Letter('A', v) else if v < 52 then Letter('a', v - 26)
                         else if v < 62 then Letter('0', v - 52) else if v == 62 then '+' else '/'
  {
    hide UPPER, LOWER, DIGITS, Letter;
    Runs(if v < 26 then v else if v < 52 then v - 26 else if v < 62 then v - 52 else 0);
  }

  lemma Base32At(v: nat)
    requires v < 32
    ensures |BASE32| == |BASE32_UPPER| == 32
    ensures BASE32[v] == if v < 26 then Letter('a', v) else Letter('2', v - 26)
    ensures BASE32_UPPER[v] == if v < 26 then Letter('A', v) else Letter('2', v - 26)
  {
    hide UPPER, LOWER, FEW_DIGITS, Letter;
    Runs(if v < 26 then v else v - 26);
  }

  /** The alphabet that is written, and the table that is read, character by character. */
  lemma DigitsAre(base: Base, ch: char, v: nat)
    requires v < Pow2(base.Width())
    ensures Pow2(base.Width()) == (if base.Base64? then 64 else 32) && |BASE64| == 64 && |BASE32| == |BASE32_UPPER| == 32
    ensures base.EncodeDigit(v) == if base.Base64? then BASE64[v] else BASE32[v]
    ensures base.DecodeDigit(ch) == v <==> Spells(base, ch, v)
    ensures Spells(base, ch, v) <==> base.Fold(ch) == base.EncodeDigit(v)
  {
    hide Pow2, BASE64, BASE32, BASE32_UPPER;
    PowersSmall();
    Base64At(v);
    Base32At(if v < 32 then v else 0);
  }

  function Letter(first: char, v: nat): char
    requires first as int + v < 128
  {
    (first as int + v) as char
  }

  lemma PowersSmall()
    ensures Pow2(5) == 32 && Pow2(6) == 64 && Pow2(8) == 256
  {
  }

  /** A character has a value exactly when, in the alphabet's case, it is the character of that value. */
  lemma DigitsInverse(base: Base, ch: char, v: nat)
    requires v < Pow2(base.Width())
    ensures base.DecodeDigit(ch) == v <==> base.Fold(ch) == base.EncodeDigit(v)
    ensures -1 <= base.DecodeDigit(ch) < Pow2(base.Width())
    ensures base.Fold(ch) == '=' <==> ch == '='
    ensures base.EncodeDigit(v) != '=' && base.DecodeDigit('=') == -1
  {
    hide Pow2;
    PowersSmall();
  }

  function Text(base: Base, digits: seq<nat>): string
    requires Below(digits, base.Width())
  {
    seq(|digits|, i requires 0 <= i < |digits| => base.EncodeDigit(digits[i]))
  }

  function Pads(n: nat): string {
    seq(n, _ => '=')
  }

  function Folded(base: Base, s: string): string {
    seq(|s|, i requires 0 <= i < |s| => base.Fold(s[i]))
  }

  /**
    Sections 4 and 6 of RFC 4648: the bits of the bytes, filled up with zeros to whole digits, and the
    digits filled up with = to whole groups.
   */
  ghost predicate Encoding(base: Base, s: string, bytes: seq<nat>, digits: seq<nat>, pads: nat) {
    && Below(bytes, 8) && Below(digits, base.Width()) && Padded(digits, base.Width(), Join(bytes, 8))
    && pads < base.Group() && (|digits| + pads) % base.Group() == 0
    && s == Text(base, digits) + Pads(pads)
  }

  ghost predicate Encodes(base: Base, s: string, bytes: seq<nat>) {
    exists digits: seq<nat>, pads: nat :: Encoding(base, s, bytes, digits, pads)
  }

  /** Digits of w bits each have the bits of the bytes, from the highest of the first one on, and then fewer than w zeros. */
  ghost predicate SameBits(w: nat, digits: seq<nat>, bytes: seq<nat>)
    requires w > 0
  {
    && 8 * |bytes| <= w * |digits| < 8 * |bytes| + w
    && forall i :: 0 <= i < w * |digits| ==>
         (BitIn(w, digits, i) <==> i < 8 * |bytes| && BitIn(8, bytes, i))
  }

  ghost predicate BitIn(w: nat, words: seq<nat>, i: nat)
    requires w > 0
  {
    i / w < |words| && BitAt(words[i / w], w - 1 - i % w)
  }

  /**
    The text that spells the bytes in an alphabet: characters of six or five bits each, and = up to a multiple of
    four or eight characters.
   */
  ghost predicate Spelled(base: Base, s: string, bytes: seq<nat>, digits: seq<nat>) {
    && |digits| <= |s| < |digits| + (if base.Base64? then 4 else 8) && |s| % (if base.Base64? then 4 else 8) == 0
    && (forall i :: 0 <= i < |digits| ==> Spells(base, s[i], digits[i]))
    && (forall i :: |digits| <= i < |s| ==> s[i] == '=')
    && SameBits(if base.Base64? then 6 else 5, digits, bytes)
  }

  lemma {:induction false} JoinAt(words: seq<nat>, n: nat, i: nat)
    requires n > 0 && i < |Join(words, n)|
    ensures Join(words, n)[i] <==> BitIn(n, words, i)
    decreases |words|
  {
    hide ToBits, BitIn, Join;
    NoWords(n);
    if words != [] {
      var init, last := words[..|words| - 1], words[|words| - 1];
      assert words == init + [last];
      JoinAppend(init, last, n);
      var k := |Join(init, n)|;
      if i < k {
        JoinAt(init, n, i);
        InFront(n, init, last, i);
      } else {
        InLast(n, init, last, i - k);
        ToBitsAt(last, n, i - k);
        BitIs(last, n - 1 - (i - k));
      }
    }
  }

  lemma NoWords(n: nat)
    ensures Join([], n) == []
  {
  }

  lemma InFront(n: nat, words: seq<nat>, last: nat, i: nat)
    requires n > 0 && i < n * |words|
    ensures BitIn(n, words, i) <==> BitIn(n, words + [last], i)
  {
    hide BitAt;
    PlaceBelow(n, |words|, i);
  }

  lemma InLast(n: nat, words: seq<nat>, last: nat, j: nat)
    requires j < n
    ensures BitIn(n, words + [last], n * |words| + j) <==> BitAt(last, n - 1 - j)
  {
    hide BitAt;
    Arith.DivUnique(n * |words| + j, n, |words|, j);
  }

  lemma PlaceBelow(n: nat, k: nat, i: nat)
    requires n > 0 && i < n * k
    ensures i / n < k
  {
    var q := i / n;
    assert i == n * q + i % n;
    Arith.MulMono(k, if q >= k then q else k, n);
  }

  lemma SameBitsIff(w: nat, digits: seq<nat>, bytes: seq<nat>)
    requires w > 0
    ensures Padded(digits, w, Join(bytes, 8)) <==> SameBits(w, digits, bytes)
  {
    hide Join, BitIn;
    var stream, bits := Join(digits, w), Join(bytes, 8);
    assert |stream| == w * |digits| && |bits| == 8 * |bytes|;
    forall i: nat | i < |stream| ensures stream[i] <==> BitIn(w, digits, i) { JoinAt(digits, w, i); }
    forall i: nat | i < |bits| ensures bits[i] <==> BitIn(8, bytes, i) { JoinAt(bytes, 8, i); }
    if SameBits(w, digits, bytes) {
      assert stream == bits + Zeros(|stream| - |bits|);
    }
  }

  /** The encodings that Encode and Decode are proved against are the texts that spell the bytes. */
  lemma SpelledIff(base: Base, s: string, bytes: seq<nat>, digits: seq<nat>)
    requires Below(bytes, 8)
    ensures Below(digits, base.Width()) && |digits| <= |s| && Encoding(base, Folded(base, s), bytes, digits, |s| - |digits|)
       <==> Spelled(base, s, bytes, digits)
  {
    hide Join, Padded, SameBits, Pow2, Spells;
    SameBitsIff(base.Width(), digits, bytes);
    if Spelled(base, s, bytes, digits) { SpelledBelow(base, s, digits); }
    if Below(digits, base.Width()) && |digits| <= |s| {
      SpelledText(base, s, digits);
    }
  }

  lemma SpelledBelow(base: Base, s: string, digits: seq<nat>)
    requires |digits| <= |s| && forall i :: 0 <= i < |digits| ==> Spells(base, s[i], digits[i])
    ensures Below(digits, base.Width())
  {
    hide Pow2;
    PowersSmall();
  }

  lemma SpelledText(base: Base, s: string, digits: seq<nat>)
    requires Below(digits, base.Width()) && |digits| <= |s|
    ensures Folded(base, s) == Text(base, digits) + Pads(|s| - |digits|) <==>
              (forall i :: 0 <= i < |digits| ==> Spells(base, s[i], digits[i])) && (forall i :: |digits| <= i < |s| ==> s[i] == '=')
  {
    hide Pow2, Spells;
    var text := Text(base, digits) + Pads(|s| - |digits|);
    forall i | 0 <= i < |s|
      ensures Folded(base, s)[i] == text[i] <==> if i < |digits| then Spells(base, s[i], digits[i]) else s[i] == '='
    {
      if i < |digits| { DigitsAre(base, s[i], digits[i]); } else { NoFoldToPad(base, s[i]); }
    }
  }

  lemma NoFoldToPad(base: Base, ch: char)
    ensures base.Fold(ch) == '=' <==> ch == '='
  {
  }

  lemma EncodesIff(base: Base, s: string, bytes: seq<nat>)
    ensures Encodes(base, Folded(base, s), bytes) <==> Below(bytes, 8) && exists digits: seq<nat> :: Spelled(base, s, bytes, digits)
  {
    hide Spelled, Encoding;
    if Encodes(base, Folded(base, s), bytes) {
      var digits: seq<nat>, pads: nat :| Encoding(base, Folded(base, s), bytes, digits, pads);
      EncodingParts(base, Folded(base, s), bytes, digits, pads);
      SpelledIff(base, s, bytes, digits);
    }
    if digits: seq<nat> :| Below(bytes, 8) && Spelled(base, s, bytes, digits) {
      SpelledIff(base, s, bytes, digits);
    }
  }

  lemma EncodingParts(base: Base, s: string, bytes: seq<nat>, digits: seq<nat>, pads: nat)
    requires Encoding(base, s, bytes, digits, pads)
    ensures Below(bytes, 8) && Below(digits, base.Width()) && |s| == |digits| + pads
  {
  }

  /** How long the text is, and that it is in the alphabet's case. */
  lemma SpelledSize(base: Base, s: string, bytes: seq<nat>, digits: seq<nat>)
    requires Spelled(base, s, bytes, digits)
    ensures |s| == if base.Base64? then 4 * ((|bytes| + 2) / 3) else 8 * ((|bytes| + 4) / 5)
  {
    hide Spells, BitIn;
    if base.Base64? { Size64(|bytes|, |digits|, |s|); } else { Size32(|bytes|, |digits|, |s|); }
  }

  lemma Size64(n: nat, digits: nat, size: nat)
    requires 8 * n <= 6 * digits < 8 * n + 6 && digits <= size < digits + 4 && size % 4 == 0
    ensures size == 4 * ((n + 2) / 3)
  {
    var k, m := size / 4, (n + 2) / 3;
    assert size == 4 * k && 3 * m <= n + 2 < 3 * m + 3;
    assert k == m;
  }

  lemma Size32(n: nat, digits: nat, size: nat)
    requires 8 * n <= 5 * digits < 8 * n + 5 && digits <= size < digits + 8 && size % 8 == 0
    ensures size == 8 * ((n + 4) / 5)
  {
    var k, m := size / 8, (n + 4) / 5;
    assert size == 8 * k && 5 * m <= n + 4 < 5 * m + 5;
    assert k == m;
  }

  lemma PlainCase(base: Base, s: string)
    requires Folded(base, s) == s
    ensures base.Base32? ==> forall i :: 0 <= i < |s| ==> !('A' <= s[i] <= 'Z')
  {
    forall i | 0 <= i < |s| ensures base.Fold(s[i]) == s[i] { assert Folded(base, s)[i] == s[i]; }
  }

  method Encode(base: Base, bytes: seq<nat>) returns (s: string)
    requires Below(bytes, 8)
    ensures exists digits: seq<nat> :: Spelled(base, s, bytes, digits)
    ensures base.Base32? ==> forall i :: 0 <= i < |s| ==> !('A' <= s[i] <= 'Z')
    ensures |s| == if base.Base64? then 4 * ((|bytes| + 2) / 3) else 8 * ((|bytes| + 4) / 5)
    ensures Encodes(base, s, bytes)
  {
    s := EncodeDigits(base, bytes);
    hide *;
    PlainText(base, s, bytes);
    PlainCase(base, s);
    EncodesIff(base, s, bytes);
    ghost var digits :| Spelled(base, s, bytes, digits);
    SpelledSize(base, s, bytes, digits);
  }

  method EncodeDigits(base: Base, bytes: seq<nat>) returns (s: string)
    requires Below(bytes, 8)
    ensures Encodes(base, s, bytes)
  {
    hide Below, Padded, Join;
    var ok, digits := ConvertBits(8, base.Width(), true, bytes);
    s := Text(base, digits);
    var pads := 0;
    assert s == Text(base, digits) + Pads(0);
    while |s| % base.Group() != 0
      invariant 0 <= pads <= Missing(|digits|, base.Group()) && s == Text(base, digits) + Pads(pads)
      decreases base.Group() - pads
    {
      GroupFull(|digits|, pads, base);
      pads := pads + 1;
      s := s + ['='];
    }
    GroupFull(|digits|, pads, base);
    assert Encoding(base, s, bytes, digits, pads);
  }

  /** How many are missing to a whole number of groups. */
  function Missing(n: nat, group: nat): (k: nat)
    requires group > 0
    ensures k < group
  {
    (group - n % group) % group
  }

  lemma GroupFull(n: nat, k: nat, base: Base)
    requires k <= Missing(n, base.Group())
    ensures (n + k) % base.Group() == 0 <==> k == Missing(n, base.Group())
  {
    if base.Base64? {
      assert n == 4 * (n / 4) + n % 4;
    } else {
      assert n == 8 * (n / 8) + n % 8;
    }
  }

  /** Text ends at the first NUL. */
  function CString(s: string): (t: string)
    ensures |t| <= |s| && t == s[..|t|] && (|t| < |s| ==> s[|t|] == '\0')
    ensures forall i :: 0 <= i < |t| ==> s[i] != '\0'
  {
    if s == "" || s[0] == '\0' then ""
    else
      var t := CString(s[1..]);
      assert s == [s[0]] + s[1..];
      [s[0]] + t
  }

  /** The values of the characters up to the first without one. */
  ghost predicate Values(base: Base, t: string, val: seq<nat>) {
    && |val| <= |t|
    && (forall i :: 0 <= i < |val| ==> base.DecodeDigit(t[i]) == val[i])
    && (|val| < |t| ==> base.DecodeDigit(t[|val|]) == -1)
  }

  /** What the decoder asks for after the values: = up to a whole group, and no more. */
  ghost predicate Finished(base: Base, t: string, n: nat) {
    && n <= |t| && (forall i :: n <= i < |t| ==> t[i] == '=')
    && |t| % base.Group() == 0 && |t| - n < base.Group()
  }

  lemma ValuesBelow(base: Base, t: string, val: seq<nat>)
    requires Values(base, t, val)
    ensures Below(val, base.Width())
  {
    hide Pow2;
    PowersSmall();
    forall i | 0 <= i < |val| ensures val[i] < Pow2(base.Width()) {
      assert base.DecodeDigit(t[i]) == val[i];
      DigitsInverse(base, t[i], 0);
    }
  }

  lemma FinishedIsEncoding(base: Base, t: string, val: seq<nat>, bytes: seq<nat>)
    requires Values(base, t, val) && Below(bytes, 8) && Finished(base, t, |val|)
    requires Truncated(bytes, 8, Join(val, base.Width())) && NothingLost(bytes, 8, Join(val, base.Width()), base.Width())
    ensures Encoding(base, Folded(base, t), bytes, val, |t| - |val|)
  {
    ValuesBelow(base, t, val);
    FinishedText(base, t, val);
    hide Pow2, Join, Zeros, Text, Pads, Folded;
    var stream, head := Join(val, base.Width()), Join(bytes, 8);
    assert stream == head + stream[|head|..];
    assert |val| + (|t| - |val|) == |t|;
  }

  lemma FinishedText(base: Base, t: string, val: seq<nat>)
    requires Values(base, t, val) && Finished(base, t, |val|)
    ensures Below(val, base.Width()) && Folded(base, t) == Text(base, val) + Pads(|t| - |val|)
  {
    ValuesBelow(base, t, val);
    hide Pow2;
    var s := Text(base, val) + Pads(|t| - |val|);
    forall i | 0 <= i < |t| ensures base.Fold(t[i]) == s[i] {
      if i < |val| { DigitsInverse(base, t[i], val[i]); } else { DigitsInverse(base, t[i], 0); }
    }
    assert Folded(base, t) == s;
  }

  /** The number of characters up to the first without a value. */
  function Leading(base: Base, t: string): nat {
    if t == "" || base.DecodeDigit(t[0]) < 0 then 0 else 1 + Leading(base, t[1..])
  }

  lemma {:induction false} LeadingIs(base: Base, t: string, k: nat)
    requires k <= |t| && (forall i :: 0 <= i < k ==> base.DecodeDigit(t[i]) >= 0)
    requires k < |t| ==> base.DecodeDigit(t[k]) < 0
    ensures Leading(base, t) == k
  {
    if k > 0 { LeadingIs(base, t[1..], k - 1); }
  }

  lemma EncodingIsFinished(base: Base, t: string, val: seq<nat>, bytes: seq<nat>, digits: seq<nat>, pads: nat)
    requires Values(base, t, val) && Encoding(base, Folded(base, t), bytes, digits, pads)
    ensures val == digits && Finished(base, t, |val|)
  {
    hide Pow2, Join, Zeros, Padded;
    var s := Folded(base, t);
    assert |s| == |t| == |digits| + pads;
    forall i | 0 <= i < |t|
      ensures if i < |digits| then base.DecodeDigit(t[i]) == digits[i] else t[i] == '='
    {
      assert s[i] == base.Fold(t[i]);
      if i < |digits| { DigitsInverse(base, t[i], digits[i]); } else { DigitsInverse(base, t[i], 0); }
    }
    DigitsInverse(base, '=', 0);
    LeadingIs(base, t, |val|);
    LeadingIs(base, t, |digits|);
  }

  /** The bytes of an encoding are found again. */
  lemma BytesFound(base: Base, val: seq<nat>, bytes: seq<nat>, found: seq<nat>)
    requires Below(bytes, 8) && Below(found, 8) && Padded(val, base.Width(), Join(bytes, 8))
    requires Truncated(found, 8, Join(val, base.Width()))
    ensures found == bytes && NothingLost(found, 8, Join(val, base.Width()), base.Width())
  {
    var stream, head := Join(val, base.Width()), Join(bytes, 8);
    assert |head| == 8 * |bytes| && |Join(found, 8)| == 8 * |found|;
    hide Pow2, Join, Zeros, ToBits;
    assert |found| == |bytes|;
    assert stream[..|head|] == head;
    JoinInjective(found, bytes, 8);
    assert stream[|head|..] == Zeros(|stream| - |head|);
  }

  /** A text is reported valid exactly when it is the encoding of some bytes, and those are then returned. */
  method Decode(base: Base, s: string) returns (valid: bool, ret: seq<nat>)
    ensures valid ==> Below(ret, 8) && exists digits: seq<nat> :: Spelled(base, CString(s), ret, digits)
    ensures forall bytes: seq<nat>, digits: seq<nat> :: Below(bytes, 8) && Spelled(base, CString(s), bytes, digits) ==>
              valid && ret == bytes
    ensures valid ==> Encodes(base, Folded(base, CString(s)), ret)
    ensures forall bytes: seq<nat> :: Encodes(base, Folded(base, CString(s)), bytes) ==> valid && ret == bytes
  {
    hide Below, Padded, Truncated, NothingLost, Join, Pow2, Folded, Encoding;
    ghost var t := CString(s);
    var val: seq<nat> := [];
    var p := 0;
    while p < |s| && s[p] != '\0'
      invariant p == |val| <= |t| && forall i :: 0 <= i < p ==> base.DecodeDigit(t[i]) == val[i]
    {
      var x := base.DecodeDigit(s[p]);
      if x == -1 {
        break;
      }
      DigitsInverseAt(base, s[p]);
      val := val + [x];
      p := p + 1;
    }
    assert Values(base, t, val);
    ValuesBelow(base, t, val);
    valid, ret := ConvertBits(base.Width(), 8, false, val);
    var q := p;
    while valid && p < |s| && s[p] != '\0'
      invariant q <= p <= |t| && forall i :: q <= i < p ==> t[i] == '='
      invariant valid ==> NothingLost(ret, 8, Join(val, base.Width()), base.Width())
      invariant !valid ==> !NothingLost(ret, 8, Join(val, base.Width()), base.Width()) || !Finished(base, t, |val|)
      decreases |s| - p, valid
    {
      if s[p] != '=' {
        assert t[p] != '=';
        valid := false;
        break;
      }
      p := p + 1;
    }
    valid := valid && p % base.Group() == 0 && p - q < base.Group();
    assert valid <==> NothingLost(ret, 8, Join(val, base.Width()), base.Width()) && Finished(base, t, |val|);
    if valid {
      FinishedIsEncoding(base, t, val, ret);
      assert Encodes(base, Folded(base, t), ret);
    }
    forall bytes: seq<nat> | Encodes(base, Folded(base, t), bytes) ensures valid && ret == bytes {
      var digits, pads :| Encoding(base, Folded(base, t), bytes, digits, pads);
      EncodedParts(base, Folded(base, t), bytes, digits, pads);
      EncodingIsFinished(base, t, val, bytes, digits, pads);
      BytesFound(base, val, bytes, ret);
    }
    DecodedIff(base, t, valid, ret);
  }

  lemma DecodedIff(base: Base, t: string, valid: bool, ret: seq<nat>)
    requires valid ==> Encodes(base, Folded(base, t), ret)
    requires forall bytes: seq<nat> :: Encodes(base, Folded(base, t), bytes) ==> valid && ret == bytes
    ensures valid ==> Below(ret, 8) && exists digits: seq<nat> :: Spelled(base, t, ret, digits)
    ensures forall bytes: seq<nat>, digits: seq<nat> :: Below(bytes, 8) && Spelled(base, t, bytes, digits) ==> valid && ret == bytes
  {
    hide *;
    if valid { EncodesIff(base, t, ret); }
    forall bytes: seq<nat>, digits: seq<nat> | Below(bytes, 8) && Spelled(base, t, bytes, digits) ensures valid && ret == bytes {
      EncodesIff(base, t, bytes);
    }
  }

  lemma DigitsInverseAt(base: Base, ch: char)
    ensures base.DecodeDigit(ch) >= -1
  {
  }

  lemma EncodedParts(base: Base, s: string, bytes: seq<nat>, digits: seq<nat>, pads: nat)
    requires Encoding(base, s, bytes, digits, pads)
    ensures Below(bytes, 8) && Padded(digits, base.Width(), Join(bytes, 8))
  {
  }

  /** Every list of bytes is decoded from its encoding. */
  method EncodeThenDecode(base: Base, bytes: seq<nat>) returns (valid: bool, ret: seq<nat>)
    requires Below(bytes, 8)
    ensures valid && ret == bytes
  {
    hide Encodes;
    var s := Encode(base, bytes);
    PlainText(base, s, bytes);
    valid, ret := Decode(base, s);
  }

  /** Encoded text has no NUL and is in the alphabet's case. */
  lemma PlainText(base: Base, s: string, bytes: seq<nat>)
    requires Encodes(base, s, bytes)
    ensures CString(s) == s && Folded(base, s) == s
  {
    var digits, pads :| Encoding(base, s, bytes, digits, pads);
    hide Pow2, Join, Zeros, Padded;
    forall i | 0 <= i < |s| ensures s[i] != '\0' && base.Fold(s[i]) == s[i] {
      if i < |digits| {
        PlainDigit(base, digits[i]);
        assert s[i] == base.EncodeDigit(digits[i]);
      } else {
        assert s[i] == '=';
      }
    }
    NoNul(s);
    assert Folded(base, s) == s;
  }

  lemma {:induction false} NoNul(s: string)
    requires forall i :: 0 <= i < |s| ==> s[i] != '\0'
    ensures CString(s) == s
  {
    if s != "" { NoNul(s[1..]); }
  }

  lemma PlainDigit(base: Base, v: nat)
    requires v < Pow2(base.Width())
    ensures base.EncodeDigit(v) != '\0' && base.Fold(base.EncodeDigit(v)) == base.EncodeDigit(v)
  {
    hide Pow2;
    PowersSmall();
  }
}
