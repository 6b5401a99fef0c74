/** Machine sizes (`size_t` on a 64-bit platform) and the rounding of requested capacities. */
module Sizes {
  const SIZE_MAX: nat := 0xFFFF_FFFF_FFFF_FFFF

  const TWO_TO_63: nat := 0x8000_0000_0000_0000

  type Size = n: nat | n <= SIZE_MAX

  function MinimumOf(lhs: nat, rhs: nat): (m: nat)
    ensures m <= lhs && m <= rhs
    ensures m == lhs || m == rhs
  {
    if lhs < rhs then lhs else rhs
  }

  function Pow2(k: nat): (p: nat)
    ensures p > 0
  {
    if k == 0 then 1 else 2 * Pow2(k - 1)
  }

  ghost predicate IsPowerOf2(c: nat) {
    exists k: nat :: c == Pow2(k)
  }

  lemma {:induction false} Pow2Monotone(j: nat, k: nat)
    requires j < k
    ensures 2 * Pow2(j) <= Pow2(k)
  {
    if j + 1 < k {
      Pow2Monotone(j, k - 1);
    }
  }

  lemma MultiplyAssociates(a: nat, b: nat, c: nat)
    ensures a * b * c == a * (b * c)
  {
  }

  lemma {:induction false} Pow2Adds(j: nat, k: nat)
    ensures Pow2(j + k) == Pow2(j) * Pow2(k)
  {
    if j > 0 {
      Pow2Adds(j - 1, k);
      MultiplyAssociates(2, Pow2(j - 1), Pow2(k));
    }
  }

  lemma Pow2Doubles(k: nat, p: nat, q: nat)
    requires Pow2(k) == p && q == p * p
    ensures Pow2(2 * k) == q
  {
    Pow2Adds(k, k);
  }

  lemma Pow2Of63And64()
    ensures Pow2(63) == TWO_TO_63
    ensures Pow2(64) == SIZE_MAX + 1
  {
    Pow2Doubles(1, 2, 4);
    Pow2Doubles(2, 4, 16);
    Pow2Doubles(4, 16, 0x100);
    Pow2Doubles(8, 0x100, 0x1_0000);
    Pow2Doubles(16, 0x1_0000, 0x1_0000_0000);
    Pow2Doubles(32, 0x1_0000_0000, SIZE_MAX + 1);
  }

  // ---------- bits ----------

  /** Bit `i` of `x`, counted from the least significant one. */
  predicate Bit(x: nat, i: nat) {
    if i == 0 then x % 2 == 1 else Bit(x / 2, i - 1)
  }

  function BitOr(a: nat, b: nat): nat
    decreases a + b
  {
    if a == 0 then b
    else if b == 0 then a
    else 2 * BitOr(a / 2, b / 2) + (if a % 2 == 1 || b % 2 == 1 then 1 else 0)
  }

  function ShiftRight(x: nat, s: nat): nat {
    if s == 0 then x else ShiftRight(x / 2, s - 1)
  }

  /** The number of bits needed to write `x`. */
  function BitLength(x: nat): (h: nat)
    ensures x < Pow2(h)
    ensures x > 0 ==> h > 0 && Pow2(h - 1) <= x
  {
    if x == 0 then 0 else 1 + BitLength(x / 2)
  }

  lemma MultiplyMonotone(d: nat, a: nat, b: nat)
    requires a <= b
    ensures d * a <= d * b
  {
  }

  lemma QuotientIsUnique(x: nat, d: nat, q: nat, r: nat)
    requires r < d && x == d * q + r
    ensures x / d == q
  {
    var q' := x / d;
    assert x == d * q' + x % d;
    if q' < q {
      MultiplyMonotone(d, q' + 1, q);
    } else if q < q' {
      MultiplyMonotone(d, q + 1, q');
    }
  }

  lemma DivideTwice(x: nat, p: nat)
    requires p > 0
    ensures x / 2 / p == x / (2 * p)
  {
    var q, r := x / 2 / p, x / 2 % p;
    assert x / 2 == p * q + r;
    assert x == (2 * p) * q + (2 * r + x % 2);
    QuotientIsUnique(x, 2 * p, q, 2 * r + x % 2);
  }

  lemma {:induction false} ShiftRightIsDivision(x: nat, s: nat)
    ensures ShiftRight(x, s) == x / Pow2(s)
  {
    if s > 0 {
      ShiftRightIsDivision(x / 2, s - 1);
      DivideTwice(x, Pow2(s - 1));
    }
  }

  lemma {:induction false} ZeroHasNoBits(i: nat)
    ensures !Bit(0, i)
  {
    if i > 0 {
      ZeroHasNoBits(i - 1);
    }
  }

  lemma BitOrHalves(a: nat, b: nat)
    requires a > 0 && b > 0
    ensures BitOr(a, b) / 2 == BitOr(a / 2, b / 2)
    ensures BitOr(a, b) % 2 == 1 <==> a % 2 == 1 || b % 2 == 1
  {
  }

  lemma {:induction false} BitOrBits(a: nat, b: nat, i: nat)
    ensures Bit(BitOr(a, b), i) <==> Bit(a, i) || Bit(b, i)
    decreases i
  {
    if a == 0 || b == 0 {
      ZeroHasNoBits(i);
    } else {
      BitOrHalves(a, b);
      if i > 0 {
        BitOrBits(a / 2, b / 2, i - 1);
      }
    }
  }

  lemma {:induction false} ShiftRightBits(x: nat, s: nat, i: nat)
    ensures Bit(ShiftRight(x, s), i) <==> Bit(x, i + s)
  {
    if s > 0 {
      ShiftRightBits(x / 2, s - 1, i);
    }
  }

  lemma {:induction false} BitsBelowBitLength(x: nat, i: nat)
    ensures Bit(x, i) ==> i < BitLength(x)
    ensures i + 1 == BitLength(x) ==> Bit(x, i)
  {
    if x == 0 {
      ZeroHasNoBits(i);
    } else if i > 0 {
      BitsBelowBitLength(x / 2, i - 1);
    }
  }

  lemma {:induction false} AllOnes(x: nat, h: nat)
    requires forall i: nat :: Bit(x, i) <==> i < h
    ensures x == Pow2(h) - 1
  {
    assert Bit(x, 0) <==> 0 < h;
    if h == 0 {
      if x > 0 {
        BitsBelowBitLength(x, BitLength(x) - 1);
      }
    } else {
      forall i: nat
        ensures Bit(x / 2, i) <==> i < h - 1
      {
        assert Bit(x, i + 1) <==> i + 1 < h;
      }
      AllOnes(x / 2, h - 1);
    }
  }

  /** Some bit of `x` at one of the `width` positions from `i` upwards is set. */
  ghost predicate BitWithin(x: nat, i: nat, width: nat) {
    exists j: nat :: i <= j < i + width && Bit(x, j)
  }

  /** Every set bit of `x` has been copied into the `width - 1` positions below it. */
  ghost predicate Smeared(y: nat, x: nat, width: nat) {
    forall i: nat :: Bit(y, i) <==> BitWithin(x, i, width)
  }

  /** One smearing step doubles the width. */
  lemma SmearStep(y: nat, x: nat, width: nat)
    requires Smeared(y, x, width)
    ensures Smeared(BitOr(y, ShiftRight(y, width)), x, 2 * width)
  {
    forall i: nat
      ensures Bit(BitOr(y, ShiftRight(y, width)), i) <==> BitWithin(x, i, 2 * width)
    {
      BitOrBits(y, ShiftRight(y, width), i);
      ShiftRightBits(y, width, i);
      assert BitWithin(x, i, 2 * width) <==> BitWithin(x, i, width) || BitWithin(x, i + width, width);
    }
  }

  lemma SmearedIsAllOnes(y: nat, x: nat, width: nat)
    requires Smeared(y, x, width)
    requires BitLength(x) <= width
    ensures y == Pow2(BitLength(x)) - 1
  {
    var h := BitLength(x);
    forall i: nat
      ensures Bit(y, i) <==> i < h
    {
      forall j: nat | Bit(x, j)
        ensures j < h
      {
        BitsBelowBitLength(x, j);
      }
      if i < h {
        BitsBelowBitLength(x, h - 1);
        assert BitWithin(x, i, width);
      }
    }
    AllOnes(y, h);
  }

  // ---------- rounding ----------

  lemma RoundedFits(n: Size)
    requires 1 < n <= TWO_TO_63
    ensures n <= Pow2(BitLength(n - 1)) <= TWO_TO_63
  {
    Pow2Of63And64();
    var h := BitLength(n - 1);
    if h > 63 {
      if h - 1 > 63 {
        Pow2Monotone(63, h - 1);
      }
      assert false;
    } else if h < 63 {
      Pow2Monotone(h, 63);
    }
  }

  /** What rounding a capacity means: the least power of two that is large enough, or `SIZE_MAX`
      where no 64-bit power of two is. */
  ghost function Rounded(n: Size): (c: Size)
    ensures c >= n
    ensures c >= 1
  {
    if n <= 1 then 1
    else if n > TWO_TO_63 then SIZE_MAX
    else RoundedFits(n); Pow2(BitLength(n - 1))
  }

  lemma BitLengthOfLargeSize(x: nat)
    requires x <= SIZE_MAX
    ensures BitLength(x) <= 64
    ensures x >= TWO_TO_63 ==> BitLength(x) == 64
  {
    Pow2Of63And64();
    var h := BitLength(x);
    if h > 64 {
      if h - 1 > 64 {
        Pow2Monotone(64, h - 1);
      }
      assert false;
    } else if h < 64 && x >= TWO_TO_63 {
      if h < 63 {
        Pow2Monotone(h, 63);
      }
      assert false;
    }
  }

  lemma ShortFits(y: nat, h: nat)
    requires y < Pow2(h) && h <= 64
    ensures y <= SIZE_MAX
  {
    Pow2Of63And64();
    if h < 64 {
      Pow2Monotone(h, 64);
    }
  }

  lemma SmearedIsShort(y: nat, x: nat, width: nat)
    requires Smeared(y, x, width)
    ensures BitLength(y) <= BitLength(x)
  {
    var h := BitLength(y);
    if h > 0 {
      BitsBelowBitLength(y, h - 1);
      assert BitWithin(x, h - 1, width);
      var j: nat :| h - 1 <= j < h - 1 + width && Bit(x, j);
      BitsBelowBitLength(x, j);
    }
  }

  /** Smearing a 64-bit word does not set a bit beyond the 64 there are. */
  lemma SmearedFits(y: nat, x: nat, width: nat)
    requires Smeared(y, x, width) && x <= SIZE_MAX
    ensures y <= SIZE_MAX
  {
    BitLengthOfLargeSize(x);
    SmearedIsShort(y, x, width);
    ShortFits(y, BitLength(y));
  }

  /** One step of the smearing: the word stays within 64 bits. */
  method Smear(word: Size, ghost x: nat, width: nat) returns (smeared: Size)
    requires Smeared(word, x, width) && x <= SIZE_MAX
    ensures Smeared(smeared, x, 2 * width)
  {
    SmearStep(word, x, width);
    SmearedFits(BitOr(word, ShiftRight(word, width)), x, 2 * width);
    smeared := BitOr(word, ShiftRight(word, width));
  }

  /** `nextPowerOf2ClampedToMax`: smears the highest bit of `n - 1` downwards and adds one. */
  method NextPowerOf2ClampedToMax(minimumCapacity: Size) returns (rounded: Size)
    ensures rounded == Rounded(minimumCapacity)
  {
    if minimumCapacity <= 1 {
      return 1;
    }
    var capacity: Size := minimumCapacity - 1;
    ghost var x := capacity;
    assert forall i: nat :: BitWithin(x, i, 1) <==> Bit(x, i);
    capacity := Smear(capacity, x, 1);
    capacity := Smear(capacity, x, 2);
    capacity := Smear(capacity, x, 4);
    capacity := Smear(capacity, x, 8);
    capacity := Smear(capacity, x, 16);
    capacity := Smear(capacity, x, 32);
    BitLengthOfLargeSize(x);
    SmearedIsAllOnes(capacity, x, 64);
    Pow2Of63And64();
    if minimumCapacity <= TWO_TO_63 {
      RoundedFits(minimumCapacity);
    }
    if capacity == SIZE_MAX {
      return SIZE_MAX;
    }
    return capacity + 1;
  }

  lemma SizeMaxIsNotAPowerOf2()
    ensures !IsPowerOf2(SIZE_MAX)
  {
  }

  /** The rounded capacity is a power of two, and saturates exactly for requests above 2^63. */
  lemma RoundedIsPowerOf2OrMax(n: Size)
    ensures IsPowerOf2(Rounded(n)) <==> n <= TWO_TO_63
    ensures Rounded(n) == SIZE_MAX <==> n > TWO_TO_63
  {
    SizeMaxIsNotAPowerOf2();
    if n <= 1 {
      assert Rounded(n) == Pow2(0);
    } else if n <= TWO_TO_63 {
      RoundedFits(n);
      assert Rounded(n) == Pow2(BitLength(n - 1));
    }
  }

  /** No smaller power of two holds the request; above 2^63 no 64-bit power of two does. */
  lemma RoundedIsLeast(n: Size, k: nat)
    requires n <= Pow2(k)
    ensures n <= TWO_TO_63 ==> Rounded(n) <= Pow2(k)
    ensures n > TWO_TO_63 ==> Pow2(k) > SIZE_MAX
  {
    Pow2Of63And64();
    if n > TWO_TO_63 {
      if k < 63 {
        Pow2Monotone(k, 63);
      } else if 64 < k {
        Pow2Monotone(64, k);
      }
    } else if n > 1 {
      var h := BitLength(n - 1);
      if h < k {
        Pow2Monotone(h, k);
      } else if k + 1 < h {
        Pow2Monotone(k, h - 1);
      }
    }
  }

  /** Rounding less than doubles a request. */
  lemma RoundedBelowDouble(n: Size)
    requires n >= 1
    ensures Rounded(n) < 2 * n
  {
  }
}
