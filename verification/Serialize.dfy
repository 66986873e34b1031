/** VarInt and CompactSize: numbers in as few bytes as possible. */
module Serialize {
  import opened Bits
  import opened Wrappers
  import opened ByteStrings

  // ---------- VarInt ----------

  /** All bytes but the last have their high bit set. */
  ghost predicate VarBytes(a: seq<Byte>) {
    && a != [] && a[|a| - 1] < 0x80
    && forall i :: 0 <= i < |a| - 1 ==> a[i] >= 0x80
  }

  /** What the bytes before the last stand for: a base-128 number from which every digit takes one more. */
  function Carried(a: seq<Byte>): nat {
    if a == [] then 0 else 128 * Carried(a[..|a| - 1]) + a[|a| - 1] % 128 + 1
  }

  function VarValue(a: seq<Byte>): nat
    requires a != []
  {
    128 * Carried(a[..|a| - 1]) + a[|a| - 1] % 128
  }

  /** The bytes, from the last back, that WriteVarInt collects. */
  function Head(n: nat): (a: seq<Byte>)
    ensures forall i :: 0 <= i < |a| ==> a[i] >= 0x80
    decreases n
  {
    if n == 0 then [] else Head((n - 1) / 128) + [(n - 1) % 128 + 0x80]
  }

  function VarInt(n: nat): (a: seq<Byte>)
    ensures VarBytes(a)
  {
    Head(n / 128) + [n % 128]
  }

  lemma {:induction false} CarriedOfHead(n: nat)
    ensures Carried(Head(n)) == n
  {
    if n > 0 {
      CarriedOfHead((n - 1) / 128);
      assert Head(n)[..|Head(n)| - 1] == Head((n - 1) / 128);
    }
  }

  lemma {:induction false} HeadOfCarried(a: seq<Byte>)
    requires forall i :: 0 <= i < |a| ==> a[i] >= 0x80
    ensures Head(Carried(a)) == a
  {
    if a != [] {
      var front, last := a[..|a| - 1], a[|a| - 1];
      HeadOfCarried(front);
      Digit(Carried(front), last);
      assert Carried(a) == 128 * Carried(front) + last % 128 + 1;
      assert a == front + [last];
    }
  }

  lemma ValueOfVarInt(n: nat)
    ensures VarValue(VarInt(n)) == n
  {
    CarriedOfHead(n / 128);
    assert VarInt(n)[..|VarInt(n)| - 1] == Head(n / 128);
  }

  lemma Digit(c: nat, b: Byte)
    ensures (128 * c + b % 128) / 128 == c && (128 * c + b % 128) % 128 == b % 128
    ensures b % 128 == if b < 0x80 then b else b - 0x80
  {
  }

  lemma VarIntOfValue(a: seq<Byte>)
    requires VarBytes(a)
    ensures VarInt(VarValue(a)) == a
  {
    var front, last := a[..|a| - 1], a[|a| - 1];
    HeadOfCarried(front);
    Digit(Carried(front), last);
    hide Carried, Head;
    assert a == front + [last];
  }

  function Pow128(k: nat): nat {
    if k == 0 then 1 else 128 * Pow128(k - 1)
  }

  function OneMore(digit: Byte): nat {
    digit % 0x80 + 1
  }

  /** The sum of 128^i times one more than digit i, over the i bytes before the last one of the first n. */
  function DigitSum(a: seq<Byte>, i: nat): nat
    requires i < |a|
  {
    if i == 0 then 0 else DigitSum(a, i - 1) + Pow128(i) * OneMore(a[|a| - i - 1])
  }

  /** The documented value: the last digit, and 128^i times one more than the i-th digit before it. */
  lemma VarFormula(a: seq<Byte>)
    requires a != []
    ensures VarValue(a) == a[|a| - 1] % 0x80 + DigitSum(a, |a| - 1)
  {
    hide Pow128, Carried, DigitSum;
    var front, last := a[..|a| - 1], a[|a| - 1];
    assert a == front + [last];
    CarriedSum(front, last);
  }

  lemma {:induction false} CarriedSum(front: seq<Byte>, last: Byte)
    ensures DigitSum(front + [last], |front|) == 128 * Carried(front)
  {
    hide Carried, DigitSum;
    SumStarts(front, last);
    if front != [] {
      var init, digit := front[..|front| - 1], front[|front| - 1];
      assert front == init + [digit];
      CarriedSum(init, digit);
      SumShifts(front, last, |init|);
    }
  }

  lemma SumStarts(front: seq<Byte>, last: Byte)
    ensures front == [] ==> DigitSum(front + [last], 0) == 0 && Carried(front) == 0
    ensures front != [] ==> Carried(front) == 128 * Carried(front[..|front| - 1]) + OneMore(front[|front| - 1])
  {
  }

  /** One more byte at the end multiplies the sum by 128. */
  lemma {:induction false} SumShifts(a: seq<Byte>, last: Byte, i: nat)
    requires i < |a|
    ensures DigitSum(a + [last], i + 1) == 128 * DigitSum(a, i) + 128 * OneMore(a[|a| - 1])
  {
    if i == 0 {
      assert Pow128(1) == 128;
      assert DigitSum(a + [last], 0) == 0;
    } else {
      SumShifts(a, last, i - 1);
      assert Pow128(i + 1) == 128 * Pow128(i);
      assert (a + [last])[|a| - i - 1] == a[|a| - i - 1];
      Distributes(Pow128(i), OneMore(a[|a| - i - 1]));
    }
  }

  lemma Distributes(p: nat, d: nat)
    ensures (128 * p) * d == 128 * (p * d)
  {
  }

  lemma HeadIs(m: nat)
    ensures Head(m) == if m == 0 then [] else Head((m - 1) / 128) + [(m - 1) % 128 + 0x80]
  {
  }

  lemma VarIntIs(n: nat)
    ensures VarInt(n) == Head(n / 128) + [n % 128]
  {
  }

  lemma OneOrTwoBytes(n: nat)
    requires n < 16512
    ensures VarInt(n) == if n < 128 then [n] else [n / 128 - 1 + 0x80, n % 128]
  {
    hide Head, VarInt;
    VarIntIs(n);
    HeadIs(n / 128);
    HeadIs(0);
  }

  lemma ThreeBytes(n: nat)
    requires 16512 <= n < 2113664
    ensures VarInt(n) == [(n / 128 - 1) / 128 - 1 + 0x80, (n / 128 - 1) % 128 + 0x80, n % 128]
  {
    hide Head, VarInt;
    VarIntIs(n);
    HeadIs(n / 128);
    HeadIs((n / 128 - 1) / 128);
    HeadIs(0);
  }

  /** The documented examples. */
  lemma KnownEncodings()
    ensures VarInt(0) == [0x00] && VarInt(1) == [0x01] && VarInt(127) == [0x7F]
    ensures VarInt(128) == [0x80, 0x00] && VarInt(255) == [0x80, 0x7F] && VarInt(256) == [0x81, 0x00]
    ensures VarInt(16383) == [0xFE, 0x7F] && VarInt(16384) == [0xFF, 0x00] && VarInt(16511) == [0xFF, 0x7F]
    ensures VarInt(65535) == [0x82, 0xFE, 0x7F] && VarInt(0x1_0000_0000) == [0x8E, 0xFE, 0xFE, 0xFF, 0x00]
  {
    hide *;
    OneOrTwoBytes(0);
    OneOrTwoBytes(1);
    OneOrTwoBytes(127);
    OneOrTwoBytes(128);
    OneOrTwoBytes(255);
    OneOrTwoBytes(256);
    OneOrTwoBytes(16383);
    OneOrTwoBytes(16384);
    OneOrTwoBytes(16511);
    ThreeBytes(65535);
    VarIntIs(0x1_0000_0000);
    HeadIs(33554432);
    HeadIs(262143);
    HeadIs(2047);
    HeadIs(15);
    HeadIs(0);
  }

  /** Every number has one encoding, and every list of bytes of this form is one. */
  lemma VarIntBijection(n: nat, a: seq<Byte>)
    requires VarBytes(a)
    ensures VarValue(a) == n <==> a == VarInt(n)
  {
    ValueOfVarInt(n);
    VarIntOfValue(a);
  }

  /** No encoding is the beginning of another one: a stream of numbers is read back in one way. */
  lemma PrefixFree(a: seq<Byte>, b: seq<Byte>, rest: seq<Byte>, other: seq<Byte>)
    requires VarBytes(a) && VarBytes(b) && a + rest == b + other
    ensures a == b && rest == other
  {
    assert a == (a + rest)[..|a|] && b == (b + other)[..|b|];
    assert rest == (a + rest)[|a|..] && other == (b + other)[|b|..];
    assert |a| == |b| by {
      assert (a + rest)[|a| - 1] == a[|a| - 1] && (b + other)[|b| - 1] == b[|b| - 1];
    }
  }

  lemma SevenBits(k: nat)
    ensures Pow2(k + 7) == 128 * Pow2(k)
  {
    assert Pow2(k + 1) == 2 * Pow2(k) && Pow2(k + 2) == 2 * Pow2(k + 1) && Pow2(k + 3) == 2 * Pow2(k + 2);
    assert Pow2(k + 4) == 2 * Pow2(k + 3) && Pow2(k + 5) == 2 * Pow2(k + 4) && Pow2(k + 6) == 2 * Pow2(k + 5);
  }

  /** Numbers of the given number of bits have at most ceil(bits / 7) bytes: those of the buffer tmp. */
  lemma {:induction false} HeadFits(n: nat, bits: nat)
    requires n < Pow2(bits)
    ensures 7 * |Head(n)| < bits + 7
  {
    hide Pow2;
    if n > 0 {
      Pow2Zero();
      Pow2Of7();
      if bits <= 7 {
        Pow2Mono(bits, 7);
        assert Head((n - 1) / 128) == [];
      } else {
        SevenBits(bits - 7);
        HeadFits((n - 1) / 128, bits - 7);
      }
    }
  }

  lemma Pow2Of7()
    ensures Pow2(7) == 128
  {
    SevenBits(0);
  }

  lemma VarIntFits(n: nat, bits: nat)
    requires bits > 0 && n < Pow2(bits)
    ensures |VarInt(n)| <= (bits + 6) / 7
  {
    hide Pow2;
    Pow2Of7();
    if bits <= 7 {
      Pow2Mono(bits, 7);
    } else {
      SevenBits(bits - 7);
      HeadFits(n / 128, bits - 7);
    }
  }

  function Reversed(s: seq<Byte>): (r: seq<Byte>)
    ensures |r| == |s|
  {
    if s == [] then [] else [s[|s| - 1]] + Reversed(s[..|s| - 1])
  }

  lemma ReversedStep(s: seq<Byte>, b: Byte)
    ensures Reversed(s + [b]) == [b] + Reversed(s)
  {
    assert (s + [b])[..|s + [b]| - 1] == s;
  }

  /** What the rest of n still adds in front. */
  function Front(n: nat, first: bool): seq<Byte> {
    if first then VarInt(n) else Head(n + 1)
  }

  lemma FrontStep(n: nat, first: bool)
    ensures Front(n, first) == (if n <= 0x7F then [] else Front(n / 128 - 1, false)) + [n % 128 + if first then 0 else 0x80]
  {
    assert n <= 0x7F ==> Head(n / 128) == [];
    assert Head(n + 1) == Head(n / 128) + [n % 128 + 0x80];
  }

  /** The digits so far, and what n still adds in front of them. */
  ghost predicate Collected(digits: seq<Byte>, n: nat, number: nat) {
    Front(n, digits == []) + Reversed(digits) == VarInt(number)
  }

  lemma CollectStep(digits: seq<Byte>, n: nat, number: nat)
    requires Collected(digits, n, number)
    ensures var more := digits + [n % 128 + if digits == [] then 0 else 0x80];
      && |VarInt(number)| >= |more|
      && (if n <= 0x7F then Reversed(more) == VarInt(number) else Collected(more, n / 128 - 1, number))
  {
    hide Front, Reversed, VarInt;
    FrontStep(n, digits == []);
    var digit: Byte := n % 128 + if digits == [] then 0 else 0x80;
    MoveDigit(if n <= 0x7F then [] else Front(n / 128 - 1, false), digit, digits);
    assert [] + Reversed(digits + [digit]) == Reversed(digits + [digit]);
  }

  lemma MoveDigit(front: seq<Byte>, digit: Byte, digits: seq<Byte>)
    ensures (front + [digit]) + Reversed(digits) == front + Reversed(digits + [digit])
  {
    hide Reversed;
    ReversedStep(digits, digit);
  }

  lemma NothingCollected(number: nat)
    ensures Collected([], number, number)
  {
    assert Front(number, true) + Reversed([]) == VarInt(number);
  }

  /** The first loop: the digits, last one first, in a buffer of ceil(bits / 7) bytes. */
  method CollectDigits(bits: nat, number: nat) returns (tmp: array<Byte>, len: nat)
    requires bits > 0 && number < Pow2(bits)
    ensures fresh(tmp) && len < tmp.Length && Reversed(tmp[..len + 1]) == VarInt(number)
  {
    hide Pow2, VarInt, Collected, Reversed;
    VarIntFits(number, bits);
    NothingCollected(number);
    tmp := new Byte[(bits + 6) / 7](_ => 0);
    var n: nat := number;
    len := 0;
    while true
      invariant len <= tmp.Length && Collected(tmp[..len], n, number)
      decreases n
    {
      CollectStep(tmp[..len], n, number);
      ghost var done := tmp[..len];
      tmp[len] := n % 128 + if len == 0 then 0 else 0x80;
      assert tmp[..len + 1] == done + [tmp[len]];
      if n <= 0x7F {
        break;
      }
      n := n / 128 - 1;
      len := len + 1;
    }
  }

  /** For an integer type of the given number of bits. */
  method WriteVarInt(bits: nat, number: nat) returns (output: seq<Byte>)
    requires bits > 0 && number < Pow2(bits)
    ensures output == VarInt(number)
  {
    hide Pow2, VarInt;
    var tmp, len := CollectDigits(bits, number);
    output := [];
    var k := len + 1;
    while k > 0
      invariant 0 <= k <= len + 1 && output + Reversed(tmp[..k]) == VarInt(number)
    {
      k := k - 1;
      assert tmp[..k + 1] == tmp[..k] + [tmp[k]];
      ReversedStep(tmp[..k], tmp[k]);
      assert output + ([tmp[k]] + Reversed(tmp[..k])) == (output + [tmp[k]]) + Reversed(tmp[..k]);
      output := output + [tmp[k]];
    }
  }

  lemma {:induction false} CarriedGrows(a: seq<Byte>, i: nat)
    requires i <= |a|
    ensures Carried(a[..i]) <= Carried(a)
    decreases |a| - i
  {
    if i == |a| {
      assert a[..i] == a;
    } else {
      assert a[..i + 1][..i] == a[..i];
      CarriedGrows(a, i + 1);
    }
  }

  /** An encoding at the front of a stream that starts with bytes with a high bit goes on after them. */
  lemma GoesOn(stream: seq<Byte>, i: nat, a: seq<Byte>)
    requires i <= |stream| && VarBytes(a) && a <= stream && forall j :: 0 <= j < i ==> stream[j] >= 0x80
    ensures |a| > i && VarValue(a) >= 128 * Carried(stream[..i])
    ensures i < |stream| && stream[i] < 0x80 ==> |a| == i + 1
    ensures i < |stream| && stream[i] >= 0x80 ==> |a| > i + 1
  {
    assert a[|a| - 1] == stream[|a| - 1];
    assert a[i] == stream[i];
    var front := a[..|a| - 1];
    CarriedGrows(front, i);
    assert front[..i] == stream[..i];
  }

  /** Reads a number of the given number of bits: it succeeds exactly when the stream starts with one that fits. */
  method ReadVarInt(bits: nat, stream: seq<Byte>) returns (r: Option<nat>, next: nat)
    requires bits >= 7
    ensures next <= |stream| && (r.Some? ==> next > 0 && VarBytes(stream[..next]) && r.value == VarValue(stream[..next]) < Pow2(bits))
    ensures forall a :: VarBytes(a) && a <= stream ==>
      if VarValue(a) < Pow2(bits) then r == Some(VarValue(a)) && next == |a| else r == None
  {
    hide Pow2, Carried, VarBytes, VarValue, NoneFits;
    SevenBits(bits - 7);
    var max := Pow2(bits) - 1;
    var n: nat := 0;
    next := 0;
    NothingCarried();
    assert stream[..0] == [];
    while true
      invariant next <= |stream| && n == Carried(stream[..next]) <= max
      invariant forall j :: 0 <= j < next ==> stream[j] >= 0x80
      decreases |stream| - next
    {
      if next == |stream| {
        Stops(stream, next, max);
        NoneFitsIs(stream, max);
        return None, next;
      }
      var chData := stream[next];
      CarriedStep(stream, next);
      next := next + 1;
      if n > max / 128 {
        Stops(stream, next - 1, max);
        NoneFitsIs(stream, max);
        return None, next;
      }
      n := 128 * n + chData % 128;
      if chData >= 0x80 {
        if n == max {
          Stops(stream, next, max);
          NoneFitsIs(stream, max);
          return None, next;
        }
        n := n + 1;
      } else {
        OnlyThis(stream, next);
        return Some(n), next;
      }
    }
  }

  /** No encoding of a number that fits is at the front of the stream. */
  ghost predicate NoneFits(stream: seq<Byte>, max: nat) {
    forall a :: VarBytes(a) && a <= stream ==> VarValue(a) > max
  }

  lemma NoneFitsIs(stream: seq<Byte>, max: nat)
    requires NoneFits(stream, max)
    ensures forall a :: VarBytes(a) && a <= stream ==> VarValue(a) > max
  {
  }

  lemma NothingCarried()
    ensures Carried([]) == 0
  {
  }

  lemma CarriedStep(stream: seq<Byte>, i: nat)
    requires i < |stream|
    ensures Carried(stream[..i + 1]) == 128 * Carried(stream[..i]) + stream[i] % 128 + 1
    ensures (forall j :: 0 <= j < i ==> stream[j] >= 0x80) && stream[i] < 0x80 ==>
              VarBytes(stream[..i + 1]) && VarValue(stream[..i + 1]) == 128 * Carried(stream[..i]) + stream[i] % 128
  {
    assert stream[..i + 1][..i] == stream[..i];
  }

  /** The stream ends too early, or what was read already stands for too much. */
  lemma Stops(stream: seq<Byte>, next: nat, max: nat)
    requires next <= |stream| && forall j :: 0 <= j < next ==> stream[j] >= 0x80
    requires next == |stream| || 128 * Carried(stream[..next]) > max
    ensures NoneFits(stream, max)
  {
    hide Carried, VarValue;
    forall a | VarBytes(a) && a <= stream ensures VarValue(a) > max {
      GoesOn(stream, next, a);
    }
  }

  lemma OnlyThis(stream: seq<Byte>, next: nat)
    requires 0 < next <= |stream| && VarBytes(stream[..next])
    ensures forall a :: VarBytes(a) && a <= stream ==> a == stream[..next]
  {
    forall a | VarBytes(a) && a <= stream ensures a == stream[..next] {
      PrefixFree(a, stream[..next], stream[|a|..], stream[next..]);
    }
  }

  /** Every list of numbers is read back from what was written, one after the other, up to its end. */
  method WriteThenRead(bits: nat, numbers: seq<nat>) returns (back: seq<nat>)
    requires bits >= 7 && forall i :: 0 <= i < |numbers| ==> numbers[i] < Pow2(bits)
    ensures back == numbers
  {
    hide Pow2, VarInt, VarValue, VarBytes;
    ghost var written: seq<seq<Byte>> := [];
    var stream: seq<Byte> := [];
    for i := 0 to |numbers|
      invariant |written| == i && stream == Concat(written)
      invariant forall j :: 0 <= j < i ==> written[j] == VarInt(numbers[j])
    {
      var bytes := WriteVarInt(bits, numbers[i]);
      assert (written + [bytes])[..i] == written;
      stream := stream + bytes;
      written := written + [bytes];
    }
    back := ReadNumbers(bits, stream, numbers, written, |numbers|);
  }

  method ReadNumbers(bits: nat, input: seq<Byte>, ghost numbers: seq<nat>, ghost written: seq<seq<Byte>>, count: nat)
    returns (back: seq<nat>)
    requires bits >= 7 && |written| == |numbers| == count && input == Concat(written)
    requires forall i :: 0 <= i < count ==> numbers[i] < Pow2(bits) && written[i] == VarInt(numbers[i])
    ensures back == numbers
  {
    hide Pow2, VarInt, VarValue, VarBytes, Concat;
    back := [];
    var stream := input;
    assert written[0..] == written;
    for i := 0 to count
      invariant back == numbers[..i] && stream == Concat(written[i..])
    {
      assert written[i..][0] == written[i] && written[i..][1..] == written[i + 1..];
      ConcatFront(written[i..]);
      EncodedNumber(numbers[i]);
      var r, next := ReadVarInt(bits, stream);
      assert written[i] <= stream && stream[|written[i]|..] == Concat(written[i + 1..]);
      back := back + [r.value];
      stream := stream[next..];
    }
  }

  lemma EncodedNumber(n: nat)
    ensures VarBytes(VarInt(n)) && VarValue(VarInt(n)) == n
  {
    ValueOfVarInt(n);
  }
}
