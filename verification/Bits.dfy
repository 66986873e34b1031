/** Unsigned machine words as naturals: powers of two, single bits, and the helpers of BitUtil. */
module Bits {

  /** The words of uint64_t are the naturals below this bound. */
  const U64: nat := 0x1_0000_0000_0000_0000

  /** What uint64_t keeps of a sum. */
  function Word(x: nat): (w: nat)
    ensures w < U64
    ensures w == x <==> x < U64
  {
    x % U64
  }

  lemma WordOf(x: nat)
    requires x < 2 * U64
    ensures Word(x) == if x < U64 then x else x - U64
  {
  }

  /** x shifted left by k bits. */
  function Shl(x: nat, k: nat): (y: nat)
    ensures x <= y
  {
    if k == 0 then x else 2 * Shl(x, k - 1)
  }

  function Pow2(k: nat): (p: nat)
    ensures p >= 1
  {
    Shl(1, k)
  }

  /** All ones: the k low bits set. */
  function Ones(k: nat): nat {
    Pow2(k) - 1
  }

  type Byte = b: nat | b < 0x100

  /** The number of bits needed to write x. */
  function Len(x: nat): nat {
    if x == 0 then 0 else 1 + Len(x / 2)
  }

  predicate Bit(x: nat, i: nat) {
    if i == 0 then x % 2 == 1 else Bit(x / 2, i - 1)
  }

  function Shr(x: nat, k: nat): nat {
    if k == 0 then x else Shr(x / 2, k - 1)
  }

  function Or(a: nat, b: nat): nat {
    if a == 0 && b == 0 then 0
    else 2 * Or(a / 2, b / 2) + (if a % 2 == 1 || b % 2 == 1 then 1 else 0)
  }

  function And(a: nat, b: nat): nat {
    if a == 0 || b == 0 then 0
    else 2 * And(a / 2, b / 2) + (if a % 2 == 1 && b % 2 == 1 then 1 else 0)
  }

  function Xor(a: nat, b: nat): nat {
    if a == 0 && b == 0 then 0
    else 2 * Xor(a / 2, b / 2) + (if a % 2 != b % 2 then 1 else 0)
  }

  function PopCount(n: nat): nat {
    if n == 0 then 0 else n % 2 + PopCount(n / 2)
  }

  /** The number of trailing zero bits. */
  function TrailingZeros(n: nat): nat
    requires n > 0
  {
    if n % 2 == 1 then 0 else 1 + TrailingZeros(n / 2)
  }

  // ---------- shifts and powers of two ----------

  lemma Pow2Zero()
    ensures Pow2(0) == 1
  {
  }

  lemma {:induction false} ShlAdd(x: nat, y: nat, k: nat)
    ensures Shl(x + y, k) == Shl(x, k) + Shl(y, k)
  {
    if k > 0 { ShlAdd(x, y, k - 1); }
  }

  lemma ShlTwice(x: nat, k: nat)
    ensures Shl(2 * x, k) == 2 * Shl(x, k) == Shl(x, k + 1)
  {
    ShlAdd(x, x, k);
  }

  lemma {:induction false} ShlShl(x: nat, a: nat, b: nat)
    ensures Shl(Shl(x, a), b) == Shl(x, a + b)
  {
    if b > 0 { ShlShl(x, a, b - 1); }
  }

  lemma ShlMono(x: nat, y: nat, k: nat)
    ensures x <= y <==> Shl(x, k) <= Shl(y, k)
  {
    if x <= y {
      ShlAdd(x, y - x, k);
    } else {
      ShlAdd(y, x - y, k);
    }
  }

  lemma {:induction false} Pow2Mono(a: nat, b: nat)
    requires a <= b
    ensures Pow2(a) <= Pow2(b)
  {
    if a < b { Pow2Mono(a, b - 1); }
  }

  lemma ShlBy16(x: nat)
    ensures Shl(x, 16) == 0x1_0000 * x
  {
    assert Shl(x, 4) == 2 * Shl(x, 3) == 4 * Shl(x, 2) == 8 * Shl(x, 1) == 16 * x;
    assert Shl(x, 8) == 2 * Shl(x, 7) == 4 * Shl(x, 6) == 8 * Shl(x, 5) == 256 * x;
    assert Shl(x, 12) == 2 * Shl(x, 11) == 4 * Shl(x, 10) == 8 * Shl(x, 9) == 0x1000 * x;
    assert Shl(x, 16) == 2 * Shl(x, 15) == 4 * Shl(x, 14) == 8 * Shl(x, 13) == 0x1_0000 * x;
  }

  lemma Pow2Of64()
    ensures Pow2(64) == U64
  {
    ShlBy16(1);
    ShlShl(1, 16, 16);
    ShlBy16(0x1_0000);
    ShlShl(1, 32, 16);
    ShlBy16(0x1_0000_0000);
    ShlShl(1, 48, 16);
    ShlBy16(0x1_0000_0000_0000);
  }

  lemma {:induction false} LenBounds(x: nat)
    ensures x < Pow2(Len(x))
    ensures x > 0 ==> Pow2(Len(x) - 1) <= x
  {
    if x > 0 { LenBounds(x / 2); }
  }

  lemma {:induction false} LenLimit(x: nat, k: nat)
    requires x < Pow2(k)
    ensures Len(x) <= k
  {
    LenBounds(x);
    if Len(x) > k { Pow2Mono(k, Len(x) - 1); }
  }

  lemma {:induction false} HalfOfOnes(k: nat)
    ensures Ones(k) / 2 == if k == 0 then 0 else Ones(k - 1)
  {
  }

  lemma OnesIsZero(k: nat)
    ensures Ones(k) == 0 <==> k == 0
  {
  }

  // ---------- single bits ----------

  lemma HalvesOfOr(a: nat, b: nat)
    ensures Or(a, b) / 2 == Or(a / 2, b / 2)
    ensures Or(a, b) % 2 == 1 <==> a % 2 == 1 || b % 2 == 1
  {
  }

  lemma {:induction false} OrBit(a: nat, b: nat, i: nat)
    ensures Bit(Or(a, b), i) <==> Bit(a, i) || Bit(b, i)
  {
    hide Or;
    HalvesOfOr(a, b);
    if i > 0 { OrBit(a / 2, b / 2, i - 1); }
  }

  lemma HalvesOfAnd(a: nat, b: nat)
    ensures And(a, b) / 2 == And(a / 2, b / 2)
    ensures And(a, b) % 2 == 1 <==> a % 2 == 1 && b % 2 == 1
  {
  }

  lemma {:induction false} AndBit(a: nat, b: nat, i: nat)
    ensures Bit(And(a, b), i) <==> Bit(a, i) && Bit(b, i)
  {
    hide And;
    HalvesOfAnd(a, b);
    if i > 0 { AndBit(a / 2, b / 2, i - 1); }
  }

  lemma HalvesOfXor(a: nat, b: nat)
    ensures Xor(a, b) / 2 == Xor(a / 2, b / 2)
    ensures Xor(a, b) % 2 == 1 <==> a % 2 != b % 2
  {
  }

  lemma {:induction false} XorBit(a: nat, b: nat, i: nat)
    ensures Bit(Xor(a, b), i) <==> Bit(a, i) != Bit(b, i)
  {
    hide Xor;
    HalvesOfXor(a, b);
    if i > 0 { XorBit(a / 2, b / 2, i - 1); }
  }

  lemma {:induction false} Pow2Bit(k: nat, i: nat)
    ensures Bit(Pow2(k), i) <==> i == k
  {
    if k == 0 {
      assert Pow2(k) == 1;
      if i > 0 { ZeroBit(i - 1); }
    } else {
      assert Pow2(k) == 2 * Pow2(k - 1);
      if i > 0 { Pow2Bit(k - 1, i - 1); }
    }
  }

  /** A number that is not below 2^k has a bit at or above k. */
  lemma HighBit(x: nat, k: nat) returns (i: nat)
    requires x >= Pow2(k)
    ensures i >= k && Bit(x, i)
  {
    LenBounds(x);
    TopBit(x);
    i := Len(x) - 1;
    if i < k { Pow2Mono(i + 1, k); }
  }

  lemma {:induction false} ZeroBit(i: nat)
    ensures !Bit(0, i)
  {
    if i > 0 { ZeroBit(i - 1); }
  }

  lemma {:induction false} ShrBit(x: nat, k: nat, i: nat)
    ensures Bit(Shr(x, k), i) <==> Bit(x, i + k)
  {
    if k > 0 { ShrBit(x / 2, k - 1, i); }
  }

  lemma {:induction false} OnesBit(k: nat, i: nat)
    ensures Bit(Ones(k), i) <==> i < k
  {
    if k == 0 {
      ZeroBit(i);
    } else if i > 0 {
      assert Ones(k) / 2 == Ones(k - 1);
      OnesBit(k - 1, i - 1);
    }
  }

  lemma {:induction false} TopBit(x: nat)
    requires x > 0
    ensures Bit(x, Len(x) - 1)
  {
    if x > 1 { TopBit(x / 2); }
  }

  lemma {:induction false} NoBitAboveLen(x: nat, i: nat)
    requires Len(x) <= i
    ensures !Bit(x, i)
  {
    if x == 0 {
      ZeroBit(i);
    } else {
      NoBitAboveLen(x / 2, i - 1);
    }
  }

  lemma {:induction false} SameBits(a: nat, b: nat)
    requires forall i: nat :: Bit(a, i) <==> Bit(b, i)
    ensures a == b
    decreases a + b
  {
    if a + b > 0 {
      assert Bit(a, 0) <==> Bit(b, 0);
      forall i: nat ensures Bit(a / 2, i) <==> Bit(b / 2, i) {
        assert Bit(a, i + 1) <==> Bit(b, i + 1);
      }
      SameBits(a / 2, b / 2);
    }
  }

  // ---------- BitUtil ----------

  /** Some bit of x is set at a position in [i, i + width). */
  ghost predicate BitInWindow(x: nat, i: nat, width: nat) {
    exists j: nat :: i <= j < i + width && Bit(x, j)
  }

  /** x is the word `input` with every bit copied to the `width - 1` places on its right. */
  ghost predicate Smeared(input: nat, width: nat, x: nat) {
    forall i: nat :: Bit(x, i) <==> BitInWindow(input, i, width)
  }

  lemma SmearStep(input: nat, width: nat, x: nat)
    requires Smeared(input, width, x)
    ensures Smeared(input, 2 * width, Or(x, Shr(x, width)))
  {
    forall i: nat
      ensures Bit(Or(x, Shr(x, width)), i) <==> BitInWindow(input, i, 2 * width)
    {
      OrBit(x, Shr(x, width), i);
      ShrBit(x, width, i);
      assert Bit(x, i) <==> BitInWindow(input, i, width);
      assert Bit(x, i + width) <==> BitInWindow(input, i + width, width);
    }
  }

  lemma SmearedIsOnes(input: nat, x: nat)
    requires input < U64 && Smeared(input, 64, x)
    ensures x == Ones(Len(input))
  {
    Pow2Of64();
    LenLimit(input, 64);
    forall i: nat ensures Bit(x, i) <==> Bit(Ones(Len(input)), i) {
      OnesBit(Len(input), i);
      assert Bit(x, i) <==> BitInWindow(input, i, 64);
      if i < Len(input) {
        TopBit(input);
      } else {
        forall j: nat | i <= j ensures !Bit(input, j) { NoBitAboveLen(input, j); }
      }
    }
    SameBits(x, Ones(Len(input)));
  }

  /** On every 64-bit word, the six shift-and-or steps set every bit below the highest set bit. */
  method FillOnesToRight(input: nat) returns (x: nat)
    requires input < U64
    ensures x == Ones(Len(input))
  {
    x := input;
    assert Smeared(input, 1, x) by {
      forall i: nat ensures Bit(x, i) <==> BitInWindow(input, i, 1) {
        if BitInWindow(input, i, 1) {
          var j: nat :| i <= j < i + 1 && Bit(input, j);
          assert j == i;
        }
      }
    }
    SmearStep(input, 1, x);
    x := Or(x, Shr(x, 1));
    SmearStep(input, 2, x);
    x := Or(x, Shr(x, 2));
    SmearStep(input, 4, x);
    x := Or(x, Shr(x, 4));
    SmearStep(input, 8, x);
    x := Or(x, Shr(x, 8));
    SmearStep(input, 16, x);
    x := Or(x, Shr(x, 16));
    SmearStep(input, 32, x);
    x := Or(x, Shr(x, 32));
    SmearedIsOnes(input, x);
  }

  method CountBitsSet(input: nat) returns (count: nat)
    ensures count == PopCount(input)
  {
    var n := input;
    count := 0;
    while n != 0
      invariant count + PopCount(n) == PopCount(input)
    {
      count := count + n % 2;
      n := n / 2;
    }
  }

  method CountRightmostZeros(input: nat) returns (count: nat)
    requires input > 0
    ensures count == TrailingZeros(input)
  {
    count := 0;
    var n := input;
    while n % 2 == 0
      invariant n > 0
      invariant count + TrailingZeros(n) == TrailingZeros(input)
      decreases n
    {
      count := count + 1;
      n := n / 2;
    }
  }

  // ---------- population counts ----------

  lemma {:induction false} PopCountBound(n: nat)
    ensures PopCount(n) <= n
  {
    if n > 0 { PopCountBound(n / 2); }
  }

  /** A carry clears the trailing ones and sets one bit. */
  lemma {:induction false} PopCountNext(n: nat)
    ensures PopCount(n + 1) + TrailingZeros(n + 1) == PopCount(n) + 1
  {
    if n % 2 == 1 {
      assert (n + 1) / 2 == n / 2 + 1;
      PopCountNext(n / 2);
    } else {
      assert (n + 1) / 2 == n / 2;
    }
  }

  /** Setting a bit above all the bits of n adds one to the count. */
  lemma {:induction false} PopCountHighBit(n: nat, k: nat)
    requires n < Pow2(k)
    ensures PopCount(n + Pow2(k)) == PopCount(n) + 1
  {
    if k > 0 {
      assert (n + Pow2(k)) / 2 == n / 2 + Pow2(k - 1);
      assert (n + Pow2(k)) % 2 == n % 2;
      PopCountHighBit(n / 2, k - 1);
    } else {
      assert PopCount(1) == 1;
    }
  }

  lemma PopCountDouble(i: nat)
    ensures PopCount(2 * i) == PopCount(i) && PopCount(2 * i + 1) == PopCount(i) + 1
  {
  }

  lemma {:induction false} PopCountShl(x: nat, k: nat)
    ensures PopCount(Shl(x, k)) == PopCount(x)
  {
    if k > 0 {
      PopCountShl(x, k - 1);
      PopCountDouble(Shl(x, k - 1));
    }
  }

  lemma FilledStep(x: nat, k: nat)
    requires k > 0
    ensures Shl(x + 1, k) - 1 == 2 * (Shl(x + 1, k - 1) - 1) + 1
  {
  }

  /** Filling the k low bits with ones adds k to the count. */
  lemma {:induction false} PopCountFilled(x: nat, k: nat)
    ensures PopCount(Shl(x + 1, k) - 1) == PopCount(x) + k
  {
    if k == 0 {
      assert Shl(x + 1, 0) == x + 1;
    } else {
      PopCountFilled(x, k - 1);
      FilledCount(x, k);
    }
  }

  lemma FilledCount(x: nat, k: nat)
    requires k > 0
    ensures PopCount(Shl(x + 1, k) - 1) == PopCount(Shl(x + 1, k - 1) - 1) + 1
  {
    hide Shl, PopCount;
    FilledStep(x, k);
    PopCountDouble(Shl(x + 1, k - 1) - 1);
  }
}
