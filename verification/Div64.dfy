/**
 Division of a 64-bit number by a 32-bit number through multiplications
 (asm-generic/div64.h).

 Machine words are natural numbers; every C operation that can leave its word is followed
 by `U32` or `U64`.
 */
module Div64 {
  import opened Bits

  const MAX32: nat := 0xFFFF_FFFF
  const MAX64: nat := 0xFFFF_FFFF_FFFF_FFFF
  const CARRY_BITS: nat := 0x8000_0000_8000_0000  // (1ULL << 63) | (1ULL << 31)

  // ---------------------------------------------------------------- 64 x 64 -> high 64 bits

  lemma Product32(a: nat, b: nat)
    requires a < TWO32 && b < TWO32
    ensures a * b <= 0xFFFF_FFFE_0000_0001
  {
    MulStrict(a, MAX32, b);
    MulStrict(b, MAX32, MAX32);
  }

  lemma SchoolbookProduct(mHi: nat, mLo: nat, nHi: nat, nLo: nat)
    ensures (mHi * TWO32 + mLo) * (nHi * TWO32 + nLo)
         == mLo * nLo + (mLo * nHi + mHi * nLo) * TWO32 + (mHi * nHi) * TWO64
  {
    var n := nHi * TWO32 + nLo;
    MulAdd(mHi * TWO32, mLo, n);
    assert mLo * n == (mLo * nHi) * TWO32 + mLo * nLo by {
      MulAdd(nHi * TWO32, nLo, mLo);
      MulAssoc(mLo, nHi, TWO32);
    }
    assert mHi * n == (mHi * nHi) * TWO32 + mHi * nLo by {
      MulAdd(nHi * TWO32, nLo, mHi);
      MulAssoc(mHi, nHi, TWO32);
    }
    assert (mHi * TWO32) * n == (mHi * n) * TWO32 by { MulAssoc(TWO32, mHi, n); }
  }

  /** What a mask test against bits 63 and 31 says about the two halves. */
  lemma CarryBitsClear(m: nat)
    requires m < TWO64 && And(m, CARRY_BITS) == 0
    ensures m % TWO32 < TWO31 && m / TWO32 < TWO31
  {
    Pow2Values();
    BitZero(63);
    BitZero(31);
    BitAnd(m, CARRY_BITS, 63);
    BitAnd(m, CARRY_BITS, 31);
    BitIsDigit(CARRY_BITS, 63);
    BitIsDigit(CARRY_BITS, 31);
    BitIsDigit(m, 63);
    BitIsDigit(m, 31);
  }

  /** A wrapping addition carried exactly when its upper half came out below the addend's. */
  lemma CarryFromHalves(a: nat, y: nat)
    requires a < TWO64 && y <= 0xFFFF_FFFE_0000_0001
    ensures var lo := (a + y) % TWO64 / TWO32;
            lo < TWO32 && lo + (if lo < a / TWO32 then TWO32 else 0) == (a + y) / TWO32
  {
  }

  /** The high word of the product, folded out of the four partial products. */
  lemma FoldPartials(low: nat, mid: nat, high: nat, total: nat)
    requires total == low + mid * TWO32 + high * TWO64
    ensures total / TWO64 == (low / TWO32 + mid) / TWO32 + high
  {
    var q, r := low / TWO32, low % TWO32;
    var q', r' := (q + mid) / TWO32, (q + mid) % TWO32;
    assert low == q * 0x1_0000_0000 + r && q + mid == q' * 0x1_0000_0000 + r';
    ModUnique(total, 0x1_0000_0000_0000_0000, q' + high, r' * 0x1_0000_0000 + r);
  }

  lemma HighWordFits(m: nat, n: nat, bias: nat)
    requires m < TWO64 && n < TWO64 && bias <= m
    ensures (bias + m * n) / TWO64 <= m
  {
    MulStrict(n, MAX64, m);
    MulAssoc(MAX64, m, 1);
    assert bias + m * n <= m * TWO64;
  }

  /** `res_lo | ((uint64_t)res_hi << 32)`. */
  method JoinCarry(resLo: nat, resHi: bool) returns (res: nat)
    requires resLo < TWO32
    ensures res == resLo + if resHi then TWO32 else 0
  {
    Pow2Values();
    OrDisjoint(resLo, if resHi then 1 else 0, 32);
    ShlIsProduct(if resHi then 1 else 0, 32);
    res := Or(resLo, Shl(if resHi then 1 else 0, 32));
  }

  lemma BiasedLowBound(m: nat, low: nat)
    requires m < TWO64 && low <= (m % TWO32) * MAX32
    ensures low / TWO32 <= MAX32 && (m + low) / TWO32 <= 2 * MAX32
  {
    assert m + low <= (m / TWO32 + m % TWO32) * TWO32;
  }

  lemma Fits64(x: nat)
    requires x < TWO64
    ensures U64(x) == x
  {
  }

  /** First stage of `__arch_xprod_64`: the bias and the lowest partial product, from bit 32 up. */
  method LowStage(m: nat, low: nat, bias: bool) returns (res: nat)
    requires m < TWO64 && low <= (m % TWO32) * MAX32
    ensures res == ((if bias then m else 0) + low) / TWO32
    ensures res <= 2 * MAX32
  {
    BiasedLowBound(m, low);
    Fits64(low);
    if !bias {
      res := U64(low) / TWO32;
    } else if And(m, CARRY_BITS) == 0 {
      NoCarryLow(m, low);
      res := U64(m + U64(low)) / TWO32;
    } else {
      res := AddWithCarry(m, low);
    }
  }

  lemma NoCarryLow(m: nat, low: nat)
    requires m < TWO64 && And(m, CARRY_BITS) == 0 && low <= (m % TWO32) * MAX32
    ensures U64(m + low) == m + low
  {
    CarryBitsClear(m);
    Fits64(m + low);
  }

  lemma NoCarryMiddle(m: nat, acc: nat, mid: nat, mid': nat)
    requires m < TWO64 && And(m, CARRY_BITS) == 0 && acc <= 2 * MAX32
    requires mid <= (m % TWO32) * MAX32 && mid' <= (m / TWO32) * MAX32
    ensures U64(acc + mid) == acc + mid && U64(acc + mid + mid') == acc + mid + mid'
  {
    CarryBitsClear(m);
    Fits64(acc + mid);
    Fits64(acc + mid + mid');
  }

  /** Second stage: the two middle partial products. */
  method MiddleStage(m: nat, acc: nat, mid: nat, mid': nat) returns (res: nat)
    requires m < TWO64 && acc <= 2 * MAX32
    requires mid <= (m % TWO32) * MAX32 && mid' <= (m / TWO32) * MAX32
    ensures res == (acc + mid + mid') / TWO32
  {
    Fits64(mid);
    Fits64(mid');
    if And(m, CARRY_BITS) == 0 {
      NoCarryMiddle(m, acc, mid, mid');
      res := U64(acc + U64(mid));
      res := U64(res + U64(mid'));
      res := res / TWO32;
    } else {
      Fits64(acc + mid);
      res := U64(acc + U64(mid));
      res := AddWithCarry(res, mid');
    }
  }

  /** The wrapping addition and carry test shared by both stages. */
  method AddWithCarry(a: nat, y: nat) returns (res: nat)
    requires a < TWO64 && y <= 0xFFFF_FFFE_0000_0001
    ensures res == (a + y) / TWO32
  {
    var tmp := UpperHalf(a);
    CarryFromHalves(a, y);
    Fits64(y);
    var sum := U64(a + U64(y));
    var resLo := UpperHalf(sum);
    res := JoinCarry(resLo, resLo < tmp);
  }

  /** `x >> 32` into a `uint32_t`. */
  method UpperHalf(x: nat) returns (hi: nat)
    requires x < TWO64
    ensures hi == x / TWO32 < TWO32
  {
    hi := U32(x / TWO32);
  }

  method AddTop(upper: nat, high: nat, ghost sum: nat) returns (res: nat)
    requires upper + high == sum < TWO64
    ensures res == sum
  {
    res := U64(upper + U64(high));
  }

  /** The four 32 x 32 products. */
  method Partials(m: nat, n: nat) returns (low: nat, mid: nat, mid': nat, high: nat)
    requires m < TWO64 && n < TWO64
    ensures m * n == low + (mid + mid') * TWO32 + high * TWO64
    ensures low <= (m % TWO32) * MAX32 && mid <= (m % TWO32) * MAX32
    ensures mid' <= (m / TWO32) * MAX32 && high <= (m / TWO32) * MAX32
    ensures low <= 0xFFFF_FFFE_0000_0001 && mid <= 0xFFFF_FFFE_0000_0001 && mid' <= 0xFFFF_FFFE_0000_0001
  {
    var mLo, mHi, nLo, nHi := U32(m), m / TWO32, U32(n), n / TWO32;
    low, mid, mid', high := mLo * nLo, mLo * nHi, mHi * nLo, mHi * nHi;
    MulStrict(nLo, MAX32, mLo);
    MulStrict(nHi, MAX32, mLo);
    MulStrict(nLo, MAX32, mHi);
    MulStrict(nHi, MAX32, mHi);
    SchoolbookProduct(mHi, mLo, nHi, nLo);
    Product32(mLo, nLo);
    Product32(mLo, nHi);
    Product32(mHi, nLo);
  }

  /**
   `__arch_xprod_64`: the high 64 bits of `m * n`, plus `m` first when `bias` is set.
   Each carry is recovered by comparing upper halves after a wrapping addition.
   */
  method XProd64(m: nat, n: nat, bias: bool) returns (res: nat)
    requires m < TWO64 && n < TWO64
    ensures res == ((if bias then m else 0) + m * n) / TWO64
  {
    var low, mid, mid', high := Partials(m, n);
    ghost var add := if bias then m else 0;
    HighWordFits(m, n, add);
    var acc := LowStage(m, low, bias);
    var upper := MiddleStage(m, acc, mid, mid');
    FoldPartials(add + low, mid + mid', high, add + m * n);
    res := AddTop(upper, high, (add + m * n) / TWO64);
  }

  /** The product inside `__div64_const32` that tries the multiplier on the test dividend. */
  method TestProduct(m: nat, x: nat) returns (res: nat)
    requires m < TWO64 && x < TWO64
    ensures res == m * x / TWO64
  {
    var low, mid, mid', high := Partials(m, x);
    HighWordFits(m, x, 0);
    res := FoldAndAdd(low, mid, mid', high, m * x);
  }

  method FoldAndAdd(low: nat, mid: nat, mid': nat, high: nat, ghost total: nat) returns (res: nat)
    requires low <= 0xFFFF_FFFE_0000_0001 && mid <= 0xFFFF_FFFE_0000_0001 && mid' <= 0xFFFF_FFFE_0000_0001
    requires total == low + (mid + mid') * TWO32 + high * TWO64 && total / TWO64 < TWO64
    ensures res == total / TWO64
  {
    FoldPartials(low, mid + mid', high, total);
    res := AddPartials(low, mid, mid');
    res := AddTop(res, high, total / TWO64);
  }

  method AddPartials(low: nat, mid: nat, mid': nat) returns (res: nat)
    requires low <= 0xFFFF_FFFE_0000_0001 && mid <= 0xFFFF_FFFE_0000_0001 && mid' <= 0xFFFF_FFFE_0000_0001
    ensures res == (low / TWO32 + (mid + mid')) / TWO32
  {
    res := low / TWO32;
    Fits64(res + mid);
    res := U64(res + mid);
    var t := res;
    WrapTest(res, mid');
    res := U64(res + mid');
    t := if res < t then TWO32 else 0;
    res := res / TWO32 + t;
  }

  /** A wrapping addition came out smaller exactly when it carried. */
  lemma WrapTest(a: nat, y: nat)
    requires a < TWO64 && y < TWO64
    ensures var s := U64(a + y);
            s / TWO32 + (if s < a then TWO32 else 0) == (a + y) / TWO32
  {
    if a + y < TWO64 { Fits64(a + y); } else { assert a + y == TWO64 + (a + y - TWO64); }
  }

  // ---------------------------------------------------------------- reciprocals

  /** `(m_bias + m * n) / (p << 64)`, as the generated code evaluates it. */
  function Scaled(m: nat, p: nat, bias: bool, n: nat): nat
    requires p > 0
  {
    ((if bias then m else 0) + m * n) / TWO64 / p
  }

  /** The multiplier `m / (p << 64)` divides every 64-bit dividend by `b`. */
  ghost predicate Reciprocal(m: nat, p: nat, bias: bool, b: nat)
    requires p > 0 && b > 0
  {
    forall n: nat :: n < TWO64 ==> Scaled(m, p, bias, n) == n / b
  }

  /** Comparing `y / d` with a quotient after scaling both sides by `b`. */
  lemma QuotientByScaling(y: nat, d: nat, b: nat, q: nat)
    requires d > 0 && b > 0 && (q * b) * d <= y * b
    ensures y / d == q <==> y * b < (q * b) * d + b * d
  {
    var z := q * d;
    assert (q * b) * d == z * b by { MulAssoc(q, b, d); MulAssoc(q, d, b); }
    assert b * d == d * b;
    MulAdd(z, d, b);
    MulStrict(y, z, b);
    MulStrict(y, z + d, b);
    MulStrict(z + d, y, b);
    QuotientRange(y, d, q);
  }

  lemma QuotientRange(y: nat, d: nat, q: nat)
    requires d > 0 && q * d <= y
    ensures y / d == q <==> y < q * d + d
  {
    if y < q * d + d {
      DivUnique(y, d, q);
    } else {
      assert y == (y / d) * d + y % d;
    }
  }

  lemma ExpandUp(m: int, n: int, b: int, d: int, e: int, q: int, r: int)
    requires m * b == d + e && n == q * b + r
    ensures (m * n) * b == (q * b) * d + r * d + n * e
  {
    MulAssoc(n, m, b);
    MulAdd(d, e, n);
    MulAdd(q * b, r, d);
  }

  lemma ScaledAsOneDivision(m: nat, p: nat, bias: bool, n: nat)
    requires p > 0
    ensures p * TWO64 > 0
    ensures Scaled(m, p, bias, n) == ((if bias then m else 0) + m * n) / (p * TWO64)
  {
    DivDiv((if bias then m else 0) + m * n, TWO64, p);
  }

  /** A multiplier rounded up by `e / b` is right for `n` as long as its error stays below one unit. */
  lemma RoundedUpAt(m: nat, p: nat, b: nat, e: nat, n: nat)
    requires p > 0 && b > 0 && m * b == p * TWO64 + e
    ensures Scaled(m, p, false, n) == n / b <==> (n % b) * (p * TWO64) + n * e < b * (p * TWO64)
  {
    var d, q, r := p * TWO64, n / b, n % b;
    ScaledAsOneDivision(m, p, false, n);
    ExpandUp(m, n, b, d, e, q, r);
    MulStrict(0, r, d);
    MulStrict(0, n, e);
    QuotientByScaling(m * n, d, b, q);
  }

  lemma ExpandDown(m: int, n: int, b: int, u: int, d: int, q: int, r: int)
    requires m * b == u - d && n == q * b + r
    ensures (m + m * n) * b == (q * b) * u + (r + 1) * u - (n + 1) * d
  {
    assert m + m * n == m * (n + 1) by { MulAdd(n, 1, m); }
    MulAssoc(n + 1, m, b);
    MulAdd(u, -d, n + 1);
    MulAdd(q * b, r + 1, u);
  }

  lemma DownBounds(n: nat, p: nat, d: nat, b: nat, r: nat)
    requires n < TWO64 && 0 < d <= p && r < b
    ensures 0 < (n + 1) * d <= p * TWO64
    ensures p * TWO64 <= (r + 1) * (p * TWO64) <= b * (p * TWO64)
  {
    MulStrict(0, n + 1, d);
    MulStrict(n + 1, TWO64, d);
    MulStrict(1, r + 1, p * TWO64);
    MulStrict(r + 1, b, p * TWO64);
  }

  lemma RoundedDownAt(m: nat, p: nat, b: nat, d: nat, n: nat)
    requires b > 0 && m * b == p * TWO64 - d && 0 < d <= p && n < TWO64
    ensures Scaled(m, p, true, n) == n / b
  {
    ScaledAsOneDivision(m, p, true, n);
    ExpandDown(m, n, b, p * TWO64, d, n / b, n % b);
    DownBounds(n, p, d, b, n % b);
    BiasedTerm(m, n);
    QuotientByScaling(m + m * n, p * TWO64, b, n / b);
  }

  lemma BiasedTerm(m: nat, n: nat)
    ensures m + m * n >= 0
  {
    MulNonnegative(m, n);
  }

  /** A multiplier rounded down by `d / b <= p / b`, with the bias, is right for every dividend. */
  lemma RoundedDownExact(m: nat, p: nat, b: nat, d: nat)
    requires b > 0 && m * b == p * TWO64 - d && 0 < d <= p
    ensures Reciprocal(m, p, true, b)
  {
    forall n: nat | n < TWO64 ensures Scaled(m, p, true, n) == n / b {
      RoundedDownAt(m, p, b, d, n);
    }
  }

  /** Among 64-bit dividends that leave remainder b - 1, the test dividend is the largest. */
  lemma TestDividendIsWorst(b: nat, n: nat)
    requires b > 0 && TWO64 % b != 0 && n < TWO64 && n % b == b - 1
    ensures n <= MAX64 / b * b - 1
  {
    var q, k := n / b, MAX64 / b;
    assert n == q * b + (b - 1);
    assert n + 1 == (q + 1) * b by { MulAdd(q, 1, b); }
    if n + 1 == TWO64 {
      ModUnique(TWO64, b, q + 1, 0);
    }
    assert MAX64 == k * b + MAX64 % b;
    MulStrict(k, q, b);
    MulAdd(k, 1, b);
    MulStrict(q + 1, k, b);
  }

  /** The rounded-up multiplier overshoots by less than one divisor. */
  lemma RoundUpError(u: nat, b: nat) returns (m: nat, e: nat)
    requires b > 0
    ensures m == (u + b - 1) / b && m * b == u + e && e < b
  {
    m := (u + b - 1) / b;
    assert u + b - 1 == m * b + (u + b - 1) % b;
    e := m * b - u;
  }

  /** Away from remainder b - 1 the rounded-up multiplier is always right. */
  lemma RoundedUpOffWorst(m: nat, p: nat, b: nat, e: nat, n: nat)
    requires 0 < p <= b < 2 * p && m * b == p * TWO64 + e && e < b
    requires n < TWO64 && n % b != b - 1
    ensures Scaled(m, p, false, n) == n / b
  {
    var u := p * TWO64;
    RoundedUpAt(m, p, b, e, n);
    MulStrict(n % b, b - 2, u);
    MulAdd(b, -2, u);
    assert n * e < 2 * u by {
      MulStrict(n, TWO64, e);
      MulStrict(e, 2 * p, TWO64);
    }
  }

  /** At remainder b - 1 it is right exactly when the accumulated error is below one unit. */
  lemma RoundedUpAtWorst(m: nat, p: nat, b: nat, e: nat, n: nat)
    requires p > 0 && b > 0 && m * b == p * TWO64 + e && n % b == b - 1
    ensures Scaled(m, p, false, n) == n / b <==> n * e < p * TWO64
  {
    RoundedUpAt(m, p, b, e, n);
    MulAdd(b, -1, p * TWO64);
  }

  lemma TestDividend(b: nat) returns (x: nat)
    requires 0 < b < TWO64
    ensures x == MAX64 / b * b - 1 && x < TWO64 && x % b == b - 1 && x / b == MAX64 / b - 1
  {
    var k := MAX64 / b;
    assert MAX64 == k * b + MAX64 % b;
    assert k >= 1 by { MulStrict(k, 0, b); }
    MulStrict(1, k, b);
    x := k * b - 1;
    MulAdd(k, -1, b);
    ModUnique(x, b, k - 1, b - 1);
  }

  /**
   The one test decides for all dividends: the rounded-up multiplier divides every 64-bit number
   exactly when it divides the test dividend, and when it does not, the rounded-down
   multiplier with the bias does.
   */
  lemma OneTestDecides(b: nat, p: nat)
    requires 0 < p <= b < 2 * p && b < TWO64 && TWO64 % b != 0
    ensures var x := MAX64 / b * b - 1;
            var up, down := (p * TWO64 + b - 1) / b, p * TWO64 / b;
            && x >= 0
            && (Scaled(up, p, false, x) == x / b <==> Reciprocal(up, p, false, b))
            && (Scaled(up, p, false, x) != x / b ==> Reciprocal(down, p, true, b))
  {
    var u := p * TWO64;
    var x := TestDividend(b);
    var m, e := RoundUpError(u, b);
    RoundedUpAtWorst(m, p, b, e, x);
    if x * e < u {
      forall n: nat | n < TWO64 ensures Scaled(m, p, false, n) == n / b {
        if n % b == b - 1 {
          TestDividendIsWorst(b, n);
          MulStrict(n, x, e);
          RoundedUpAtWorst(m, p, b, e, n);
        } else {
          RoundedUpOffWorst(m, p, b, e, n);
        }
      }
    } else {
      assert e > p by {
        MulStrict(x, TWO64, e);
        MulStrict(e, p, TWO64);
      }
      MulAdd(m, -1, b);
      DivUnique(u, b, m - 1);
      RoundedDownExact(m - 1, p, b, b - e);
    }
  }

  // ---------------------------------------------------------------- __div64_const32

  /** `x & -x` on a `w`-bit word. */
  method LowestBit(x: nat, w: nat) returns (low: nat)
    requires 0 < x < Pow2(w)
    ensures low == Pow2(TrailingZeros(x)) && 0 < low <= x && x % low == 0 && (x / low) % 2 == 1
  {
    AndNegate(x, w);
    TrailingZerosDivides(x);
    low := And(x, Pow2(w) - x);
  }

  /** A divisor of a power of two is a power of two: its odd part is one. */
  lemma OddPartOfDivisor(b: nat, low: nat, k: nat)
    requires 0 < low <= b && b % low == 0 && (b / low) % 2 == 1 && Pow2(k) % b == 0
    ensures b / low == 1
  {
    var odd, c := b / low, Pow2(k) / b;
    assert b == odd * low;
    assert Pow2(k) == c * b;
    MulAssoc(odd, low, c);
    assert odd * (low * c) == Pow2(k);
    OddDivisorOfPow2(odd, low * c, k);
  }

  /** A common factor of two terms divides their difference. */
  lemma CommonFactor(m: nat, b: nat, p: nat, e: nat, c: nat)
    requires c > 0 && m % c == 0 && TWO64 % c == 0 && e > 0 && m * b == p * TWO64 + e
    ensures c <= e
  {
    var h, g := m / c, TWO64 / c;
    var f := h * b - p * g;
    assert m * b == (h * b) * c by { assert m == h * c; MulAssoc(h, c, b); MulAssoc(h, b, c); }
    assert p * TWO64 == (p * g) * c by { assert TWO64 == g * c; MulAssoc(p, g, c); }
    assert e == f * c by { MulAdd(h * b, -(p * g), c); }
    MulStrict(f, 0, c);
    MulStrict(1, f, c);
  }

  lemma Pow2DividesWord(k: nat)
    requires k <= 64
    ensures TWO64 % Pow2(k) == 0
  {
    Pow2Values();
    Pow2Add(64 - k, k);
    ModUnique(TWO64, Pow2(k), Pow2(64 - k), 0);
  }

  lemma ExponentBelow(k: nat, j: nat)
    requires Pow2(k) < Pow2(j)
    ensures k < j
  {
    if j <= k { Pow2Monotone(j, k); }
  }

  /** A power of two dividing the rounded-up multiplier divides its nonzero rounding error, so it divides `p`. */
  lemma LowestBitDividesScale(m: nat, b: nat, level: nat, p: nat, e: nat)
    requires 0 < m < TWO64 && b < Pow2(level + 1)
    requires m * b == p * TWO64 + e && 0 < e < b
    ensures TrailingZeros(m) <= level
  {
    TrailingZerosDivides(m);
    ExponentOfWord(m);
    Pow2DividesWord(TrailingZeros(m));
    CommonFactor(m, b, p, e, Pow2(TrailingZeros(m)));
    ExponentBelow(TrailingZeros(m), level + 1);
  }

  lemma ExponentOfWord(m: nat)
    requires 0 < m < TWO64
    ensures TrailingZeros(m) < 64
  {
    TrailingZerosDivides(m);
    Pow2Values();
    ExponentBelow(TrailingZeros(m), 64);
  }

  lemma DividesTransitive(m: nat, n: nat, c: nat)
    requires n > 0 && c > 0 && m % n == 0 && n % c == 0
    ensures m % c == 0
  {
    var h, g := m / n, n / c;
    assert m == h * n && n == g * c;
    MulAssoc(h, g, c);
    ModUnique(m, c, h * g, 0);
  }

  /** The bit tricks that choose the reduction never point past the lowest set bit of `m`. */
  method ReductionBits(mHi: nat, low: nat) returns (bits: nat)
    requires mHi < TWO32 && 0 < low < TWO32
    ensures bits <= 2 * low - 2
  {
    bits := U32(0 - low);
    assert bits == TWO32 - low;
    bits := OrAbove(bits, mHi);
    var inverted := TWO32 - 1 - bits;
    bits := U32(inverted * 2);
    assert bits <= inverted * 2;
  }

  method OrAbove(a: nat, b: nat) returns (c: nat)
    requires a < TWO32 && b < TWO32
    ensures a <= c < TWO32
  {
    Pow2Values();
    OrLeast(a, b);
    OrBound(a, b, 32);
    c := Or(a, b);
  }

  /** A power of two up to the lowest set bit of `m` divides both `m` and `p`. */
  lemma ShiftDivides(m: nat, level: nat, shift: nat)
    requires 0 < m && shift <= TrailingZeros(m) <= level
    ensures m % Pow2(shift) == 0 && Pow2(level) % Pow2(shift) == 0
  {
    TrailingZerosDivides(m);
    Pow2Divides(shift, TrailingZeros(m));
    Pow2Divides(shift, level);
    DividesTransitive(m, Pow2(TrailingZeros(m)), Pow2(shift));
  }

  lemma LowestBitOf32(m: nat)
    requires 0 < m && TrailingZeros(m) <= 31
    ensures Pow2(TrailingZeros(m)) < TWO32
  {
    Pow2Values();
    Pow2Monotone(TrailingZeros(m), 31);
  }

  /** Chooses the power of two by which `m` and `p` are reduced. */
  method ReductionDivisor(m: nat, level: nat) returns (d: nat)
    requires 0 < m < TWO64 && TrailingZeros(m) <= level <= 31
    ensures d > 0 && m % d == 0 && Pow2(level) % d == 0
  {
    LowestBitOf32(m);
    assert Pow2(64) == TWO64 by { Pow2Values(); }
    var low := LowestBit(m, 64);
    var bits := ReductionBits(m / TWO32, low);
    if bits == 0 {
      ShiftDivides(m, level, TrailingZeros(m));
      d := low;
    } else {
      ExponentBelow(ILog2(bits), TrailingZeros(m) + 1);
      ShiftDivides(m, level, ILog2(bits));
      d := Pow2(ILog2(bits));
    }
  }

  /**
   The reduction of `m / p` when no bias is needed: both are divided by the same power of
   two, exactly, and `p` stays positive.
   */
  method ReduceMultiplier(m: nat, p: nat, level: nat) returns (m': nat, p': nat, ghost c: nat)
    requires 0 < m < TWO64 && p == Pow2(level) && TrailingZeros(m) <= level <= 31
    ensures c > 0 && p' > 0 && m == m' * c && p == p' * c
  {
    var d := ReductionDivisor(m, level);
    p', m' := p / d, m / d;
    c := d;
    ExactQuotient(p, d);
    ExactQuotient(m, d);
  }

  lemma ExactQuotient(x: nat, d: nat)
    requires x > 0 && d > 0 && x % d == 0
    ensures x == (x / d) * d && x / d > 0
  {
  }

  /** Dividing multiplier and scale by a common factor changes no quotient. */
  lemma ReductionKeepsQuotients(m: nat, p: nat, m': nat, p': nat, c: nat, n: nat)
    requires c > 0 && p' > 0 && m == m' * c && p == p' * c && p > 0
    ensures Scaled(m', p', false, n) == Scaled(m, p, false, n)
  {
    ScaledAsOneDivision(m, p, false, n);
    ScaledAsOneDivision(m', p', false, n);
    assert m * n == (m' * n) * c by { MulAssoc(m', c, n); MulAssoc(m', n, c); }
    assert p * TWO64 == (p' * TWO64) * c by { MulAssoc(p', c, TWO64); MulAssoc(p', TWO64, c); }
    DivCancel(m' * n, p' * TWO64, c);
  }

  /** Both multipliers are built from the quotient and remainder of 2^64 - 1, to stay in 64 bits. */
  lemma MultiplierFromPieces(b: nat, p: nat, add: nat)
    requires b > 0 && add < b
    ensures (p * TWO64 + add) / b == (MAX64 / b) * p + ((MAX64 % b + 1) * p + add) / b
  {
    var q, r := MAX64 / b, MAX64 % b;
    assert TWO64 == q * b + (r + 1);
    var y := (r + 1) * p + add;
    var z := y / b;
    assert y == z * b + y % b;
    assert p * TWO64 + add == (q * p + z) * b + y % b by {
      MulAdd(q * b, r + 1, p);
      MulAssoc(q, b, p);
      MulAssoc(q, p, b);
      MulAdd(q * p, z, b);
    }
    DivUnique(p * TWO64 + add, b, q * p + z);
  }

  /** For a divisor that is not a power of two the multipliers fit 64 bits. */
  lemma MultiplierFits(b: nat, p: nat, add: nat)
    requires 0 < p < b < TWO32 && add < b
    ensures (p * TWO64 + add) / b < TWO64
  {
    var m := (p * TWO64 + add) / b;
    assert p * TWO64 + add == m * b + (p * TWO64 + add) % b;
    MulStrict(TWO64, m, b);
    MulStrict(p, b, TWO64);
  }

  /** Computes `((p << 64) + add) / b` with 64-bit operations; wraps only when b is a power of two. */
  method BuildMultiplier(b: nat, p: nat, add: nat) returns (m: nat)
    requires 0 < p <= b < TWO32 && add < b
    ensures m < TWO64
    ensures p < b ==> m == (p * TWO64 + add) / b
  {
    var high, rest := (MAX64 / b) * p, (MAX64 % b + 1) * p;
    Product32(MAX64 % b + 1, p);
    MulStrict(0, MAX64 / b, p);
    MultiplierFromPieces(b, p, add);
    if p < b { MultiplierFits(b, p, add); }
    m := AddPieces(high, rest, add, b);
  }

  method AddPieces(high: nat, rest: nat, add: nat, b: nat) returns (m: nat)
    requires rest <= 0xFFFF_FFFE_0000_0001 && add < b < TWO32
    ensures m < TWO64
    ensures high + (rest + add) / b < TWO64 ==> m == high + (rest + add) / b
  {
    Fits64(rest);
    Fits64(rest + add);
    var low := U64(U64(rest) + add) / b;
    m := Add64(high, low);
  }

  method Add64(high: nat, low: nat) returns (m: nat)
    ensures m < TWO64 && (high + low < TWO64 ==> m == high + low)
  {
    m := U64(U64(high) + low);
    if high + low < TWO64 {
      Fits64(high);
      Fits64(high + low);
    }
  }

  /** The divisor is not a power of two, and `low` is its lowest set bit. */
  ghost predicate NotPower(b: nat, low: nat) {
    0 < low <= b && b % low == 0 && (b / low) % 2 == 1 && b / low != 1
  }

  lemma NotPowerOf2(b: nat, low: nat, level: nat)
    requires NotPower(b, low) && Pow2(level) <= b
    ensures TWO64 % b != 0 && Pow2(level) < b
  {
    Pow2Values();
    if TWO64 % b == 0 { OddPartOfDivisor(b, low, 64); }
    if Pow2(level) == b { OddPartOfDivisor(b, low, level); }
  }

  lemma ErrorNotZero(b: nat, low: nat, level: nat, m: nat, e: nat)
    requires NotPower(b, low) && m * b == Pow2(level) * TWO64 + e
    ensures e != 0
  {
    if e == 0 {
      Pow2Values();
      Pow2Add(level, 64);
      ModUnique(Pow2(level + 64), b, m, 0);
      OddPartOfDivisor(b, low, level + 64);
    }
  }

  /** The rounded-up multiplier of a divisor that is no power of two can be reduced as far as the code tries. */
  lemma ReductionApplies(b: nat, low: nat, level: nat)
    requires NotPower(b, low) && Pow2(level) < b < Pow2(level + 1) && b < TWO32
    ensures var up := (Pow2(level) * TWO64 + b - 1) / b;
            0 < up < TWO64 && TrailingZeros(up) <= level
  {
    var m, e := RoundUpError(Pow2(level) * TWO64, b);
    ErrorNotZero(b, low, level, m, e);
    MultiplierFits(b, Pow2(level), b - 1);
    MulStrict(m, 0, b);
    MulStrict(0, Pow2(level), TWO64);
    LowestBitDividesScale(m, b, level, Pow2(level), e);
  }

  lemma QuotientAtMost(n: nat, d: nat)
    requires d > 0
    ensures n / d <= n
  {
    assert n == (n / d) * d + n % d;
    MulStrict(1, d, n / d);
  }

  lemma QuotientOfParts(n: nat, b: nat, low: nat, odd: nat)
    requires low > 0 && odd > 0 && b == odd * low
    ensures b > 0 && n / low / odd == n / b
  {
    DivDiv(n, low, odd);
  }

  /** Special case: the odd part of the divisor divides 2^64 - 1. */
  lemma SpecialCase(b: nat, low: nat, odd: nat, n: nat)
    requires 0 < low && odd > 0 && b == odd * low && MAX64 % odd == 0 && n < TWO64
    ensures b > 0 && Scaled(MAX64 / odd, 1, true, n / low) == n / b
  {
    QuotientOfParts(n, b, low, odd);
    QuotientAtMost(n, low);
    var n', m := n / low, MAX64 / odd;
    assert m * odd == 1 * TWO64 - 1;
    RoundedDownAt(m, 1, odd, 1, n');
  }

  method SpecialDivide(n: nat, b: nat, low: nat) returns (res: nat)
    requires 0 < low <= b && b % low == 0 && MAX64 % (b / low) == 0 && n < TWO64
    ensures res == n / b
  {
    var n', m := n / low, MAX64 / (b / low);
    QuotientAtMost(n, low);
    QuotientAtMost(MAX64, b / low);
    SpecialCase(b, low, b / low, n);
    res := ApplyMultiplier(m, 1, true, n');
  }

  /** Tries a multiplier on the test dividend `x`, the largest one that leaves remainder b - 1. */
  method TryMultiplier(m: nat, p: nat, b: nat) returns (x: nat, res: nat)
    requires m < TWO64 && 0 < b < TWO32 && p > 0
    ensures x == MAX64 / b * b - 1 && res == Scaled(m, p, false, x)
  {
    ghost var x0 := TestDividend(b);
    x := U64(U64(MAX64 / b * b) - 1);
    res := TestProduct(m, x);
    res := res / p;
  }

  /** `__arch_xprod_64(m, n, bias) / p`. */
  method ApplyMultiplier(m: nat, p: nat, bias: bool, n: nat) returns (res: nat)
    requires m < TWO64 && n < TWO64 && p > 0
    ensures res == Scaled(m, p, bias, n)
  {
    res := XProd64(m, n, bias);
    res := res / p;
  }

  /** The level of a 32-bit divisor's most significant bit. */
  method HighestBit(b: nat) returns (level: nat)
    requires 1 <= b < TWO32
    ensures level <= 31 && Pow2(level) <= b < Pow2(level + 1) == 2 * Pow2(level)
  {
    level := ILog2(b);
    Pow2Values();
    ExponentBelow(level, 32);
  }

  /** The branch without bias: the tested multiplier, reduced. */
  method UnbiasedMultiplier(m: nat, b: nat, level: nat, ghost low: nat) returns (m': nat, p: nat)
    requires NotPower(b, low) && Pow2(level) < b < Pow2(level + 1) && b < TWO32 && level <= 31
    requires m == (Pow2(level) * TWO64 + b - 1) / b
    requires Reciprocal(m, Pow2(level), false, b)
    ensures m' < TWO64 && p > 0 && Reciprocal(m', p, false, b)
  {
    ReductionApplies(b, low, level);
    ghost var c;
    m', p, c := ReduceMultiplier(m, Pow2(level), level);
    forall n: nat | n < TWO64 ensures Scaled(m', p, false, n) == n / b {
      ReductionKeepsQuotients(m, Pow2(level), m', p, c, n);
      assert Scaled(m, Pow2(level), false, n) == n / b;
    }
    MulStrict(1, c, m');
  }

  /** The two general branches: keep the tested multiplier, or round down and use the bias. */
  method GeneralMultiplier(m: nat, b: nat, level: nat, ghost low: nat, x: nat, test: nat)
    returns (m': nat, p: nat, bias: bool)
    requires NotPower(b, low) && Pow2(level) < b < Pow2(level + 1) && b < TWO32 && level <= 31 && TWO64 % b != 0
    requires m == (Pow2(level) * TWO64 + b - 1) / b
    requires x == MAX64 / b * b - 1 && test == Scaled(m, Pow2(level), false, x)
    ensures m' < TWO64 && p > 0 && Reciprocal(m', p, bias, b)
  {
    p := Pow2(level);
    OneTestDecides(b, p);
    bias := test != x / b;
    if bias {
      m' := BuildMultiplier(b, p, 0);
    } else {
      m', p := UnbiasedMultiplier(m, b, level, low);
    }
  }

  /**
   `__div64_const32`: division of any 64-bit number by any 32-bit divisor through a
   reciprocal chosen among three kinds.
   */
  method Div64Const32(n: nat, b: nat) returns (res: nat)
    requires n < TWO64 && 1 <= b < TWO32
    ensures res == n / b
  {
    var level := HighestBit(b);
    var m := BuildMultiplier(b, Pow2(level), b - 1);
    var x, test := TryMultiplier(m, Pow2(level), b);
    assert Pow2(32) == TWO32 by { Pow2Values(); }
    var low := LowestBit(b, 32);
    if MAX64 % (b / low) == 0 {
      res := SpecialDivide(n, b, low);
    } else {
      NotPowerOf2(b, low, level);
      var m', p, bias := GeneralMultiplier(m, b, level, low, x, test);
      res := ApplyMultiplier(m', p, bias, n);
    }
  }

  // ---------------------------------------------------------------- do_div

  /** The library division `__div64_32`, from the documented semantics of `do_div`. */
  method LibraryDivide(n: nat, base: nat) returns (n': nat, rem: nat)
    requires n < TWO64 && 1 <= base < TWO32
    ensures n' == n / base && rem == n % base
  {
    n', rem := n / base, n % base;
  }

  /** A remainder computed from low halves only. */
  lemma RemainderFromLowWords(n: nat, base: nat)
    requires 1 <= base < TWO32
    ensures U32(U32(n) - U32(U32(n / base) * base)) == n % base
  {
    var q := n / base;
    var w, v := q / TWO32, q % TWO32;
    assert n == q * base + n % base;
    assert q * base == (w * base) * TWO32 + v * base by {
      MulAdd(w * TWO32, v, base);
      MulAssoc(w, TWO32, base);
      MulAssoc(w, base, TWO32);
    }
    LowWordDifference(n, w * base, v * base, n % base);
  }

  lemma LowWordDifference(n: nat, w: nat, y: nat, r: nat)
    requires n == w * TWO32 + y + r && r < TWO32
    ensures U32(U32(n) - U32(y)) == r
  {
  }

  method DivideByPower(n: nat, base: nat) returns (n': nat, rem: nat)
    requires base >= 1 && IsPowerOf2(base)
    ensures n' == n / base && rem == n % base
  {
    MaskIsRemainder(n, base);
    rem := And(n, base - 1);
    PowerOf2Log(base);
    ShrIsQuotient(n, ILog2(base));
    n' := Shr(n, ILog2(base));
  }

  method DivideByConstant(n: nat, base: nat) returns (n': nat, rem: nat)
    requires n < TWO64 && 1 <= base < TWO32
    ensures n' == n / base && rem == n % base
  {
    var nLo := U32(n);
    n' := Div64Const32(n, base);
    var resLo := U32(n');
    RemainderFromLowWords(n, base);
    rem := U32(nLo - U32(resLo * base));
  }

  /**
   The 32-bit `do_div`: all four branches leave the quotient in the dividend and return the
   remainder. `constant` is `__builtin_constant_p(base)`, `ok` is `__div64_const32_is_OK`.
   */
  method DoDiv(n: nat, base: nat, constant: bool, ok: bool) returns (n': nat, rem: nat)
    requires n < TWO64 && 1 <= base < TWO32
    ensures n' == n / base && rem == n % base
  {
    if constant && IsPowerOf2(base) {
      n', rem := DivideByPower(n, base);
    } else if ok && constant && base != 0 {
      n', rem := DivideByConstant(n, base);
    } else if n / TWO32 == 0 {
      assert U32(n) == n;
      n', rem := U32(n) / base, U32(n) % base;
    } else {
      n', rem := LibraryDivide(n, base);
    }
  }
}
