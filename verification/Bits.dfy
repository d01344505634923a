/**
 Unsigned machine words as natural numbers: powers of two, the bitwise operators as
 recursive functions on binary digits, and the facts the other modules need about them.
 A C operation on an N-bit word is one of these functions followed by `% Pow2(N)`.
 */
module Bits {

  const TWO8: nat := 0x100
  const TWO16: nat := 0x1_0000
  const TWO31: nat := 0x8000_0000
  const TWO32: nat := 0x1_0000_0000
  const TWO63: nat := 0x8000_0000_0000_0000
  const TWO64: nat := 0x1_0000_0000_0000_0000

  type Byte = b: nat | b < 256

  /** Conversion to `uint32_t`. */
  function U32(x: int): (r: nat)
    ensures r < TWO32
  {
    x % TWO32
  }

  /** Conversion to `uint64_t`. */
  function U64(x: int): (r: nat)
    ensures r < TWO64
  {
    x % TWO64
  }

  function Pow2(k: nat): (r: nat)
    ensures r >= 1
  {
    if k == 0 then 1 else 2 * Pow2(k - 1)
  }

  /** The bitwise operators `&`, `|` and `^`. */
  function And(a: nat, b: nat): nat {
    if a == 0 || b == 0 then 0 else (if a % 2 == 1 && b % 2 == 1 then 1 else 0) + 2 * And(a / 2, b / 2)
  }

  function Or(a: nat, b: nat): nat
    decreases a + b
  {
    if a == 0 then b
    else if b == 0 then a
    else (if a % 2 == 1 || b % 2 == 1 then 1 else 0) + 2 * Or(a / 2, b / 2)
  }

  function Xor(a: nat, b: nat): nat
    decreases a + b
  {
    if a == 0 then b
    else if b == 0 then a
    else (if a % 2 != b % 2 then 1 else 0) + 2 * Xor(a / 2, b / 2)
  }

  /** Bit `i` of `a` is set. */
  predicate Bit(a: nat, i: nat) {
    if i == 0 then a % 2 == 1 else Bit(a / 2, i - 1)
  }

  /** `ilog2(n)`: the position of the most significant set bit. */
  function ILog2(n: nat): (k: nat)
    requires n >= 1
    ensures Pow2(k) <= n < Pow2(k + 1)
  {
    if n == 1 then 0 else 1 + ILog2(n / 2)
  }

  /** The position of the least significant set bit. */
  function TrailingZeros(n: nat): (k: nat)
    requires n >= 1
  {
    if n % 2 == 1 then 0 else 1 + TrailingZeros(n / 2)
  }

  // ---------------------------------------------------------------- powers of two

  lemma {:induction false} Pow2Add(a: nat, b: nat)
    ensures Pow2(a + b) == Pow2(a) * Pow2(b)
  {
    if a == 0 {
    } else {
      Pow2Add(a - 1, b);
      calc {
        Pow2(a + b);
        2 * Pow2(a - 1 + b);
        2 * (Pow2(a - 1) * Pow2(b));
        (2 * Pow2(a - 1)) * Pow2(b);
      }
    }
  }

  lemma {:induction false} Pow2Monotone(a: nat, b: nat)
    requires a <= b
    ensures Pow2(a) <= Pow2(b)
    decreases b - a
  {
    if a < b { Pow2Monotone(a + 1, b); }
  }

  lemma Pow2Values()
    ensures Pow2(8) == TWO8 && Pow2(9) == 512 && Pow2(16) == TWO16 && Pow2(31) == TWO31 && Pow2(32) == TWO32
    ensures Pow2(63) == TWO63 && Pow2(64) == TWO64
  {
    Pow2Double(4, 16);
    Pow2Double(8, 256);
    Pow2Double(16, TWO16);
    Pow2Double(32, TWO32);
    assert Pow2(9) == 2 * Pow2(8);
    assert Pow2(32) == 2 * Pow2(31);
    assert Pow2(64) == 2 * Pow2(63);
  }

  lemma Pow2Double(k: nat, p: nat)
    requires Pow2(k) == p
    ensures Pow2(k + k) == p * p
  {
    Pow2Add(k, k);
  }

  lemma Pow2Divides(j: nat, k: nat)
    requires j <= k
    ensures Pow2(k) % Pow2(j) == 0
  {
    Pow2Add(k - j, j);
    ModUnique(Pow2(k), Pow2(j), Pow2(k - j), 0);
  }

  // ---------------------------------------------------------------- division

  lemma MulAdd(a: int, b: int, c: int)
    ensures (a + b) * c == a * c + b * c
  {
  }

  lemma MulAssoc(a: int, b: int, c: int)
    ensures (a * b) * c == a * (b * c)
    ensures a * (b * c) == b * (a * c)
  {
  }

  lemma MulNonnegative(a: int, b: int)
    requires a >= 0 && b >= 0
    ensures a * b >= 0
  {
  }

  lemma MulStrict(a: int, b: int, c: int)
    requires c >= 0
    ensures a < b ==> a * c + c <= b * c
    ensures a <= b ==> a * c <= b * c
  {
    if a < b {
      var k := b - a - 1;
      MulNonnegative(k, c);
      MulAdd(a, k + 1, c);
      MulAdd(k, 1, c);
    }
  }

  lemma DivUnique(n: int, d: int, q: int)
    requires d > 0 && q * d <= n < q * d + d
    ensures n / d == q
  {
    var q' := n / d;
    assert n == q' * d + n % d;
    MulStrict(q', q, d);
    MulStrict(q, q', d);
  }

  lemma DivDiv(n: nat, a: nat, b: nat)
    requires a > 0 && b > 0
    ensures a * b > 0 && n / a / b == n / (a * b)
  {
    var q := n / a;
    var r, s := q / b, q % b;
    assert n == q * a + n % a;
    assert q == r * b + s;
    MulAdd(r * b, s, a);
    MulAssoc(r, b, a);
    MulStrict(s, b - 1, a);
    MulAdd(b, -1, a);
    assert a * b == b * a >= 1 by { MulStrict(0, b, a); }
    DivUnique(n, b * a, r);
  }

  /** A common factor cancels. */
  lemma DivCancel(n: nat, d: nat, c: nat)
    requires d > 0 && c > 0
    ensures d * c > 0 && (n * c) / (d * c) == n / d
  {
    var q, r := n / d, n % d;
    assert n == q * d + r;
    MulAdd(q * d, r, c);
    MulAssoc(q, d, c);
    MulStrict(r, d, c);
    MulStrict(0, r, c);
    DivUnique(n * c, d * c, q);
  }

  lemma ModUnique(n: int, d: int, q: int, r: int)
    requires d > 0 && 0 <= r < d && n == q * d + r
    ensures n / d == q && n % d == r
  {
    DivUnique(n, d, q);
    assert n == (n / d) * d + n % d;
  }

  // ---------------------------------------------------------------- bits of results

  lemma {:induction false} BitZero(i: nat)
    ensures !Bit(0, i)
  {
    if i > 0 { BitZero(i - 1); }
  }

  lemma {:induction false} BitAnd(a: nat, b: nat, i: nat)
    ensures Bit(And(a, b), i) == (Bit(a, i) && Bit(b, i))
    decreases i
  {
    if a == 0 || b == 0 {
      BitZero(i);
    } else {
      assert And(a, b) / 2 == And(a / 2, b / 2);
      if i > 0 { BitAnd(a / 2, b / 2, i - 1); }
    }
  }

  lemma {:induction false} BitOr(a: nat, b: nat, i: nat)
    ensures Bit(Or(a, b), i) == (Bit(a, i) || Bit(b, i))
    decreases i
  {
    BitZero(i);
    if a != 0 && b != 0 {
      assert Or(a, b) / 2 == Or(a / 2, b / 2);
      if i > 0 { BitOr(a / 2, b / 2, i - 1); }
    }
  }

  lemma {:induction false} BitXor(a: nat, b: nat, i: nat)
    ensures Bit(Xor(a, b), i) == (Bit(a, i) != Bit(b, i))
    decreases i
  {
    BitZero(i);
    if a != 0 && b != 0 {
      assert Xor(a, b) / 2 == Xor(a / 2, b / 2);
      if i > 0 { BitXor(a / 2, b / 2, i - 1); }
    }
  }

  /** A bit is a digit of the binary expansion. */
  lemma {:induction false} BitIsDigit(a: nat, i: nat)
    ensures Bit(a, i) == ((a / Pow2(i)) % 2 == 1)
    decreases i
  {
    if i > 0 {
      BitIsDigit(a / 2, i - 1);
      DivDiv(a, 2, Pow2(i - 1));
    }
  }

  lemma {:induction false} BitPow2(k: nat, i: nat)
    ensures Bit(Pow2(k), i) == (i == k)
  {
    if k == 0 {
      if i > 0 { BitZero(i - 1); }
    } else {
      assert Pow2(k) / 2 == Pow2(k - 1);
      if i > 0 { BitPow2(k - 1, i - 1); }
    }
  }

  /** The bits of a mask of `k` ones. */
  lemma {:induction false} BitMask(k: nat, i: nat)
    ensures Bit(Pow2(k) - 1, i) == (i < k)
  {
    if k == 0 {
      BitZero(i);
    } else {
      assert (Pow2(k) - 1) / 2 == Pow2(k - 1) - 1;
      if i > 0 { BitMask(k - 1, i - 1); }
    }
  }

  /** A word below 2^k has no bit at or above k. */
  lemma {:induction false} BitBound(a: nat, k: nat, i: nat)
    requires a < Pow2(k) && k <= i
    ensures !Bit(a, i)
  {
    if k == 0 {
      BitZero(i);
    } else {
      BitBound(a / 2, k - 1, i - 1);
    }
  }

  /** The bits of the complement of a `k`-bit word. */
  lemma {:induction false} BitNot(a: nat, k: nat, i: nat)
    requires a < Pow2(k)
    ensures Bit(Pow2(k) - 1 - a, i) == (i < k && !Bit(a, i))
  {
    if k == 0 {
      BitZero(i);
    } else {
      var c := Pow2(k) - 1 - a;
      assert c / 2 == Pow2(k - 1) - 1 - a / 2 && c % 2 != a % 2;
      if i > 0 { BitNot(a / 2, k - 1, i - 1); }
    }
  }

  /** Words with the same bits are equal. */
  lemma {:induction false} SameBits(a: nat, b: nat)
    requires forall i: nat :: Bit(a, i) == Bit(b, i)
    ensures a == b
  {
    if a == 0 && b == 0 {
    } else {
      forall i: nat ensures Bit(a / 2, i) == Bit(b / 2, i) {
        assert Bit(a, i + 1) == Bit(b, i + 1);
      }
      assert Bit(a, 0) == Bit(b, 0);
      SameBits(a / 2, b / 2);
    }
  }

  // ---------------------------------------------------------------- the operators in arithmetic terms

  lemma {:induction false} AndComm(a: nat, b: nat)
    ensures And(a, b) == And(b, a)
  {
    if a != 0 && b != 0 { AndComm(a / 2, b / 2); }
  }

  lemma {:induction false} ComplementDisjoint(a: nat, k: nat)
    requires a < Pow2(k)
    ensures And(a, Pow2(k) - 1 - a) == 0
  {
    if k == 0 || a == 0 || a == Pow2(k) - 1 {
    } else {
      ComplementDisjoint(a / 2, k - 1);
      assert (Pow2(k) - 1 - a) / 2 == Pow2(k - 1) - 1 - a / 2;
      assert a % 2 != (Pow2(k) - 1 - a) % 2;
    }
  }

  /** `x & -x` isolates the lowest set bit. */
  lemma {:induction false} AndNegate(x: nat, w: nat)
    requires 0 < x < Pow2(w)
    ensures And(x, Pow2(w) - x) == Pow2(TrailingZeros(x))
  {
    assert w > 0;
    var y := Pow2(w) - x;
    if x % 2 == 1 {
      assert y % 2 == 1 && y / 2 == Pow2(w - 1) - 1 - x / 2;
      ComplementDisjoint(x / 2, w - 1);
      assert And(x, y) == 1 + 2 * And(x / 2, y / 2);
    } else {
      assert y % 2 == 0 && y / 2 == Pow2(w - 1) - x / 2;
      AndNegate(x / 2, w - 1);
    }
  }

  lemma {:induction false} TrailingZerosDivides(x: nat)
    requires x >= 1
    ensures x % Pow2(TrailingZeros(x)) == 0
    ensures (x / Pow2(TrailingZeros(x))) % 2 == 1
    ensures Pow2(TrailingZeros(x)) <= x
  {
    if x % 2 == 0 {
      var k := TrailingZeros(x / 2);
      TrailingZerosDivides(x / 2);
      var q := x / 2 / Pow2(k);
      assert x / 2 == q * Pow2(k);
      assert x == q * (2 * Pow2(k));
      ModUnique(x, 2 * Pow2(k), q, 0);
    }
  }

  lemma {:induction false} OrLeast(a: nat, b: nat)
    ensures Or(a, b) >= a
    decreases a + b
  {
    if a != 0 && b != 0 { OrLeast(a / 2, b / 2); }
  }

  lemma {:induction false} OrLeastRight(a: nat, b: nat)
    ensures Or(a, b) >= b
    decreases a + b
  {
    if a != 0 && b != 0 { OrLeastRight(a / 2, b / 2); }
  }

  lemma {:induction false} OrBound(a: nat, b: nat, k: nat)
    requires a < Pow2(k) && b < Pow2(k)
    ensures Or(a, b) < Pow2(k)
  {
    if k > 0 && a != 0 && b != 0 { OrBound(a / 2, b / 2, k - 1); }
  }

  lemma {:induction false} AndSelf(a: nat)
    ensures And(a, a) == a
  {
    if a > 0 { AndSelf(a / 2); }
  }

  /** `is_power_of_2(n)`: `n != 0 && (n & (n - 1)) == 0`. */
  predicate IsPowerOf2(n: nat) {
    n != 0 && And(n, n - 1) == 0
  }

  lemma {:induction false} PowerOf2Test(n: nat)
    requires n >= 1
    ensures IsPowerOf2(n) <==> n == Pow2(ILog2(n))
  {
    if n == 1 {
    } else if n % 2 == 1 {
      AndSelf(n / 2);
      assert And(n, n - 1) == 2 * And(n / 2, (n - 1) / 2);
    } else {
      PowerOf2Test(n / 2);
      assert And(n, n - 1) == 2 * And(n / 2, (n - 1) / 2);
    }
  }

  /** An odd number divides a power of two only if it is one. */
  lemma {:induction false} OddDivisorOfPow2(d: nat, c: nat, k: nat)
    requires d % 2 == 1 && d * c == Pow2(k)
    ensures d == 1
  {
    if k == 0 {
      if d >= 2 && c >= 1 { MulStrict(1, d, c); }
    } else {
      var h := c / 2;
      if c % 2 == 1 {
        var g := d / 2;
        assert d * c == 2 * (g * c + h) + 1 by {
          MulAdd(2 * g, 1, c);
          MulAssoc(2, g, c);
        }
        assert false;
      }
      MulAssoc(2, d, h);
      assert d * h == Pow2(k - 1);
      OddDivisorOfPow2(d, h, k - 1);
    }
  }

  // ---------------------------------------------------------------- exclusive or

  lemma XorComm(a: nat, b: nat)
    ensures Xor(a, b) == Xor(b, a)
  {
    forall i: nat ensures Bit(Xor(a, b), i) == Bit(Xor(b, a), i) {
      BitXor(a, b, i);
      BitXor(b, a, i);
    }
    SameBits(Xor(a, b), Xor(b, a));
  }

  lemma XorAssoc(a: nat, b: nat, c: nat)
    ensures Xor(Xor(a, b), c) == Xor(a, Xor(b, c))
  {
    forall i: nat ensures Bit(Xor(Xor(a, b), c), i) == Bit(Xor(a, Xor(b, c)), i) {
      BitXor(a, b, i);
      BitXor(Xor(a, b), c, i);
      BitXor(b, c, i);
      BitXor(a, Xor(b, c), i);
    }
    SameBits(Xor(Xor(a, b), c), Xor(a, Xor(b, c)));
  }

  /** Applying the same mask twice restores the word. */
  lemma XorTwice(a: nat, b: nat)
    ensures Xor(Xor(a, b), b) == a
  {
    forall i: nat ensures Bit(Xor(Xor(a, b), b), i) == Bit(a, i) {
      BitXor(a, b, i);
      BitXor(Xor(a, b), b, i);
    }
    SameBits(Xor(Xor(a, b), b), a);
  }

  lemma {:induction false} XorBound(a: nat, b: nat, k: nat)
    requires a < Pow2(k) && b < Pow2(k)
    ensures Xor(a, b) < Pow2(k)
  {
    if k > 0 && a != 0 && b != 0 { XorBound(a / 2, b / 2, k - 1); }
  }

  // ---------------------------------------------------------------- joining and splitting words

  /** `a << k` without loss of bits. */
  function Shl(a: nat, k: nat): nat {
    if k == 0 then a else 2 * Shl(a, k - 1)
  }

  lemma {:induction false} ShlIsProduct(a: nat, k: nat)
    ensures Shl(a, k) == a * Pow2(k)
  {
    if k > 0 {
      ShlIsProduct(a, k - 1);
      MulAssoc(2, a, Pow2(k - 1));
    }
  }

  /** `a >> k`. */
  function Shr(a: nat, k: nat): nat
    decreases k
  {
    if k == 0 then a else Shr(a / 2, k - 1)
  }

  lemma {:induction false} ShrIsQuotient(a: nat, k: nat)
    ensures Shr(a, k) == a / Pow2(k)
    decreases k
  {
    if k > 0 {
      ShrIsQuotient(a / 2, k - 1);
      DivDiv(a, 2, Pow2(k - 1));
    }
  }

  /** The bits of a word put together from a low part and a high part. */
  lemma {:induction false} BitJoin(lo: nat, hi: nat, k: nat, i: nat)
    requires lo < Pow2(k)
    ensures Bit(lo + Shl(hi, k), i) == if i < k then Bit(lo, i) else Bit(hi, i - k)
  {
    if k > 0 && i > 0 {
      assert (lo + Shl(hi, k)) / 2 == lo / 2 + Shl(hi, k - 1);
      BitJoin(lo / 2, hi, k - 1, i - 1);
    }
  }

  /** Joining a low part with a part shifted above it is addition. */
  lemma OrDisjoint(lo: nat, hi: nat, k: nat)
    requires lo < Pow2(k)
    ensures Or(lo, Shl(hi, k)) == lo + Shl(hi, k)
  {
    var up := Shl(hi, k);
    forall i: nat ensures Bit(Or(lo, up), i) == Bit(lo + up, i) {
      BitOr(lo, up, i);
      BitJoin(lo, hi, k, i);
      BitJoin(0, hi, k, i);
      BitZero(i);
      if i >= k { BitBound(lo, k, i); }
    }
    SameBits(Or(lo, up), lo + up);
  }

  /** The remainder by an even modulus keeps the last digit. */
  lemma ModDouble(a: nat, p: nat)
    requires p > 0
    ensures a % (2 * p) == 2 * (a / 2 % p) + a % 2
    ensures a / (2 * p) == a / 2 / p
  {
    var q, r := a / 2 / p, a / 2 % p;
    assert a / 2 == q * p + r;
    MulAssoc(2, q, p);
    ModUnique(a, 2 * p, q, 2 * r + a % 2);
  }

  lemma {:induction false} BitRemainder(a: nat, k: nat, i: nat)
    ensures Bit(a % Pow2(k), i) == (i < k && Bit(a, i))
  {
    if k == 0 {
      BitZero(i);
    } else {
      ModDouble(a, Pow2(k - 1));
      var h := a / 2 % Pow2(k - 1);
      var r := 2 * h + a % 2;
      assert a % Pow2(k) == r && r / 2 == h && r % 2 == a % 2;
      if i > 0 { BitRemainder(a / 2, k - 1, i - 1); }
    }
  }

  /** Masking with `k` ones is the remainder by 2^k. */
  lemma AndMask(a: nat, k: nat)
    ensures And(a, Pow2(k) - 1) == a % Pow2(k)
  {
    forall i: nat ensures Bit(And(a, Pow2(k) - 1), i) == Bit(a % Pow2(k), i) {
      BitAnd(a, Pow2(k) - 1, i);
      BitMask(k, i);
      BitRemainder(a, k, i);
    }
    SameBits(And(a, Pow2(k) - 1), a % Pow2(k));
  }

  lemma PowerOf2Log(n: nat)
    requires n >= 1 && IsPowerOf2(n)
    ensures n == Pow2(ILog2(n))
  {
    PowerOf2Test(n);
  }

  lemma AndPowerMask(n: nat, base: nat, k: nat)
    requires base == Pow2(k)
    ensures And(n, base - 1) == n % base
  {
    AndMask(n, k);
  }

  /** `n & (base - 1)` is the remainder when `base` is a power of two. */
  lemma MaskIsRemainder(n: nat, base: nat)
    requires base >= 1 && IsPowerOf2(base)
    ensures And(n, base - 1) == n % base
  {
    PowerOf2Log(base);
    AndPowerMask(n, base, ILog2(base));
  }

  lemma ShlByte(a: nat)
    ensures Shl(a, 8) == 256 * a
  {
    Pow2Values();
    ShlIsProduct(a, 8);
  }

  /** The bits of a word put together from a byte and the bytes above it. */
  lemma BitByte(lo: Byte, hi: nat, i: nat)
    ensures Bit(lo + 256 * hi, i) == if i < 8 then Bit(lo, i) else Bit(hi, i - 8)
  {
    Pow2Values();
    ShlByte(hi);
    BitJoin(lo, hi, 8, i);
  }

  lemma {:induction false} AndBound(a: nat, b: nat)
    ensures And(a, b) <= a
  {
    if a != 0 && b != 0 { AndBound(a / 2, b / 2); }
  }

  /** `&` and `|` work byte by byte. */
  // The bitwise operators on words taken apart at the lowest byte: first one bit, then the value.

  lemma AndByteBit(a: nat, a0: Byte, a1: nat, b: nat, b0: Byte, b1: nat, lo: Byte, hi: nat, i: nat)
    requires a == a0 + 256 * a1 && b == b0 + 256 * b1 && lo == And(a0, b0) && hi == And(a1, b1)
    ensures Bit(And(a, b), i) == Bit(lo + 256 * hi, i)
  {
    BitAnd(a, b, i);
    BitByte(a0, a1, i);
    BitByte(b0, b1, i);
    BitByte(lo, hi, i);
    if i < 8 { BitAnd(a0, b0, i); } else { BitAnd(a1, b1, i - 8); }
  }

  lemma AndByteValue(a: nat, a0: Byte, a1: nat, b: nat, b0: Byte, b1: nat, lo: Byte, hi: nat)
    requires a == a0 + 256 * a1 && b == b0 + 256 * b1 && lo == And(a0, b0) && hi == And(a1, b1)
    ensures And(a, b) == lo + 256 * hi
  {
    forall i: nat ensures Bit(And(a, b), i) == Bit(lo + 256 * hi, i) {
      AndByteBit(a, a0, a1, b, b0, b1, lo, hi, i);
    }
    SameBits(And(a, b), lo + 256 * hi);
  }

  lemma OrByteBit(a: nat, a0: Byte, a1: nat, b: nat, b0: Byte, b1: nat, lo: Byte, hi: nat, i: nat)
    requires a == a0 + 256 * a1 && b == b0 + 256 * b1 && lo == Or(a0, b0) && hi == Or(a1, b1)
    ensures Bit(Or(a, b), i) == Bit(lo + 256 * hi, i)
  {
    BitOr(a, b, i);
    BitByte(a0, a1, i);
    BitByte(b0, b1, i);
    BitByte(lo, hi, i);
    if i < 8 { BitOr(a0, b0, i); } else { BitOr(a1, b1, i - 8); }
  }

  lemma OrByteValue(a: nat, a0: Byte, a1: nat, b: nat, b0: Byte, b1: nat, lo: Byte, hi: nat)
    requires a == a0 + 256 * a1 && b == b0 + 256 * b1 && lo == Or(a0, b0) && hi == Or(a1, b1)
    ensures Or(a, b) == lo + 256 * hi
  {
    forall i: nat ensures Bit(Or(a, b), i) == Bit(lo + 256 * hi, i) {
      OrByteBit(a, a0, a1, b, b0, b1, lo, hi, i);
    }
    SameBits(Or(a, b), lo + 256 * hi);
  }

  lemma XorByteBit(a: nat, a0: Byte, a1: nat, b: nat, b0: Byte, b1: nat, lo: Byte, hi: nat, i: nat)
    requires a == a0 + 256 * a1 && b == b0 + 256 * b1 && lo == Xor(a0, b0) && hi == Xor(a1, b1)
    ensures Bit(Xor(a, b), i) == Bit(lo + 256 * hi, i)
  {
    BitXor(a, b, i);
    BitByte(a0, a1, i);
    BitByte(b0, b1, i);
    BitByte(lo, hi, i);
    if i < 8 { BitXor(a0, b0, i); } else { BitXor(a1, b1, i - 8); }
  }

  lemma XorByteValue(a: nat, a0: Byte, a1: nat, b: nat, b0: Byte, b1: nat, lo: Byte, hi: nat)
    requires a == a0 + 256 * a1 && b == b0 + 256 * b1 && lo == Xor(a0, b0) && hi == Xor(a1, b1)
    ensures Xor(a, b) == lo + 256 * hi
  {
    forall i: nat ensures Bit(Xor(a, b), i) == Bit(lo + 256 * hi, i) {
      XorByteBit(a, a0, a1, b, b0, b1, lo, hi, i);
    }
    SameBits(Xor(a, b), lo + 256 * hi);
  }

  // ---------------------------------------------------------------- words and their bytes

  function Pow256(n: nat): (p: nat)
    ensures p >= 1
  {
    if n == 0 then 1 else 256 * Pow256(n - 1)
  }

  /** The value of bytes, least significant first. */
  function Word(b: seq<Byte>): nat {
    if b == [] then 0 else b[0] + 256 * Word(b[1..])
  }

  function Reversed(m: seq<Byte>): (b: seq<Byte>)
    ensures |b| == |m|
  {
    seq(|m|, i requires 0 <= i < |m| => m[|m| - 1 - i])
  }
}
