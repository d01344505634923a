/**
 Finding a zero byte in a word without looking at its bytes one by one
 (asm-generic/word-at-a-time.h), for both byte orders and both word sizes.

 A word of n bytes is a number below 256^n; `Word` puts it together from its bytes, least
 significant first. The arguments about `has_zero` and the masks go byte by byte and hold
 for any n; only the last step, counting the bytes, depends on the word size.
 */
module WordAtATime {
  import opened Bits

  /** `REPEAT_BYTE(x)`. */
  function RepeatByte(n: nat, x: Byte): nat {
    if n == 0 then 0 else x + 256 * RepeatByte(n - 1, x)
  }

  /** `~w` and `a - b` on words of n bytes. */
  function Not(n: nat, w: nat): int { Pow256(n) - 1 - w }
  function Minus(n: nat, a: nat, b: nat): nat { (a - b) % Pow256(n) }

  lemma {:induction false} WordBound(b: seq<Byte>)
    ensures Word(b) < Pow256(|b|)
  {
    if b != [] { WordBound(b[1..]); }
  }

  lemma {:induction false} RepeatBound(n: nat, x: Byte)
    ensures RepeatByte(n, x) < Pow256(n)
  {
    if n > 0 { RepeatBound(n - 1, x); }
  }

  // ---------------------------------------------------------------- single bytes

  /** `b - 1` on one byte. */
  function Before(b: Byte): Byte { if b == 0 then 255 else b - 1 }

  /** Masking a byte with its top bit. */
  lemma TopBit(x: Byte)
    ensures And(x, 0x80) == if x >= 0x80 then 0x80 else 0
  {
    Pow2Values();
    var c := if x >= 0x80 then 0x80 else 0;
    assert Pow2(7) == 0x80;
    forall i: nat ensures Bit(And(x, 0x80), i) == Bit(c, i) {
      BitAnd(x, 0x80, i);
      BitPow2(7, i);
      BitZero(i);
      BitIsDigit(x, 7);
    }
    SameBits(And(x, 0x80), c);
  }

  /** `((b - 1) & ~b) & 0x80` on one byte: the top bit is left exactly for a zero byte. */
  lemma ByteTest(b: Byte)
    ensures And(And(Before(b), 255 - b), 0x80) == if b == 0 then 0x80 else 0
  {
    if b == 0 {
      AllOnes();
    } else {
      NoTopBit(b - 1, 255 - b);
    }
  }

  lemma AllOnes()
    ensures And(And(255, 255), 0x80) == 0x80
  {
    AndSelf(255);
    TopBit(255);
  }

  lemma NoTopBit(x: Byte, y: Byte)
    requires x < 0x80 || y < 0x80
    ensures And(And(x, y), 0x80) == 0
  {
    AndBound(x, y);
    AndComm(x, y);
    AndBound(y, x);
    TopBit(And(x, y));
  }

  // ---------------------------------------------------------------- has_zero

  /** Little endian `has_zero`: `((a - one_bits) & ~a) & high_bits`, also stored as the bits. */
  function HasZero(n: nat, a: nat): nat
    requires a < Pow256(n)
  {
    And(And(Minus(n, a, RepeatByte(n, 1)), Not(n, a)), RepeatByte(n, 0x80))
  }

  lemma MinusUnfold(n: nat, x: Byte, a: nat)
    requires n > 0
    ensures var borrow := if x == 0 then 1 else 0;
            Minus(n, x + 256 * a, RepeatByte(n, 1))
            == Before(x) + 256 * ((a - RepeatByte(n - 1, 1) - borrow) % Pow256(n - 1))
  {
    var borrow := if x == 0 then 1 else 0;
    var one := RepeatByte(n - 1, 1);
    BorrowSplit(x + 256 * a - RepeatByte(n, 1), Before(x), a - one - borrow, Pow256(n - 1));
  }

  /** The three-way `&` on words, taken apart at the lowest byte. */
  lemma AndAndByte(a: nat, a0: Byte, a1: nat, b: nat, b0: Byte, b1: nat, c: nat, c0: Byte, c1: nat,
                   lo: Byte, hi: nat)
    requires a == a0 + 256 * a1 && b == b0 + 256 * b1 && c == c0 + 256 * c1
    requires lo == And(And(a0, b0), c0) && hi == And(And(a1, b1), c1)
    ensures And(And(a, b), c) == lo + 256 * hi
  {
    AndBound(a0, b0);
    AndByteValue(a, a0, a1, b, b0, b1, And(a0, b0), And(a1, b1));
    AndByteValue(And(a, b), And(a0, b0), And(a1, b1), c, c0, c1, lo, hi);
  }

  /** The result above the lowest byte, with or without a borrow from it. */
  function UpperTest(n: nat, a: nat, borrow: nat): nat
    requires a < Pow256(n)
  {
    And(And((a - RepeatByte(n, 1) - borrow) % Pow256(n), Not(n, a)), RepeatByte(n, 0x80))
  }

  /** The three operands of `has_zero`, each taken apart at the lowest byte. */
  lemma Operands(n: nat, x: Byte, a: nat, upper: nat)
    requires n > 0 && a < Pow256(n - 1)
    requires upper == (a - RepeatByte(n - 1, 1) - (if x == 0 then 1 else 0)) % Pow256(n - 1)
    ensures x + 256 * a < Pow256(n)
    ensures Minus(n, x + 256 * a, RepeatByte(n, 1)) == Before(x) + 256 * upper
    ensures Not(n, x + 256 * a) == (255 - x) + 256 * Not(n - 1, a)
    ensures RepeatByte(n, 0x80) == 0x80 + 256 * RepeatByte(n - 1, 0x80)
  {
    MinusUnfold(n, x, a);
  }

  lemma HasZeroParts(n: nat, w: nat, minus: nat, not: nat, high: nat, value: nat)
    requires w < Pow256(n)
    requires minus == Minus(n, w, RepeatByte(n, 1)) && not == Not(n, w) && high == RepeatByte(n, 0x80)
    requires And(And(minus, not), high) == value
    ensures HasZero(n, w) == value
  {
  }

  lemma HasZeroByte(n: nat, x: Byte, a: nat, low: Byte, rest: nat)
    requires n > 0 && a < Pow256(n - 1)
    requires low == And(And(Before(x), 255 - x), 0x80) && rest == UpperTest(n - 1, a, if x == 0 then 1 else 0)
    ensures x + 256 * a < Pow256(n) && HasZero(n, x + 256 * a) == low + 256 * rest
  {
    var upper := (a - RepeatByte(n - 1, 1) - (if x == 0 then 1 else 0)) % Pow256(n - 1);
    Operands(n, x, a, upper);
    HasZeroFromOperands(n, x + 256 * a, Minus(n, x + 256 * a, RepeatByte(n, 1)), Before(x), upper,
                        Not(n, x + 256 * a), 255 - x, Not(n - 1, a),
                        RepeatByte(n, 0x80), RepeatByte(n - 1, 0x80), low, rest);
  }

  lemma HasZeroFromOperands(n: nat, w: nat, minus: nat, minus0: Byte, minus1: nat, not: nat, not0: Byte, not1: nat,
                            high: nat, high1: nat, low: Byte, rest: nat)
    requires w < Pow256(n)
    requires minus == Minus(n, w, RepeatByte(n, 1)) && not == Not(n, w) && high == RepeatByte(n, 0x80)
    requires minus == minus0 + 256 * minus1 && not == not0 + 256 * not1 && high == 0x80 + 256 * high1
    requires low == And(And(minus0, not0), 0x80) && rest == And(And(minus1, not1), high1)
    ensures HasZero(n, w) == low + 256 * rest
  {
    AndAndByte(minus, minus0, minus1, not, not0, not1, high, 0x80, high1, low, rest);
    HasZeroParts(n, w, minus, not, high, low + 256 * rest);
  }

  /** A zero byte leaves its mark; a nonzero one passes the question on to the bytes above. */
  lemma HasZeroUnfold(n: nat, x: Byte, a: nat) returns (rest: nat)
    requires n > 0 && a < Pow256(n - 1)
    ensures x + 256 * a < Pow256(n)
    ensures x == 0 ==> HasZero(n, x + 256 * a) == 0x80 + 256 * rest
    ensures x != 0 ==> HasZero(n, x + 256 * a) == 256 * HasZero(n - 1, a)
  {
    rest := UpperTest(n - 1, a, if x == 0 then 1 else 0);
    ByteTest(x);
    HasZeroByte(n, x, a, if x == 0 then 0x80 else 0, rest);
    NoBorrow(n - 1, a);
  }

  lemma NoBorrow(n: nat, a: nat)
    requires a < Pow256(n)
    ensures UpperTest(n, a, 0) == HasZero(n, a)
  {
    assert (a - RepeatByte(n, 1) - 0) % Pow256(n) == Minus(n, a, RepeatByte(n, 1));
  }

  lemma BorrowSplit(d: int, low: nat, high: int, p: nat)
    requires p > 0 && low < 256 && d == low + 256 * high
    ensures d % (256 * p) == low + 256 * (high % p)
  {
    var q := high / p;
    assert high == q * p + high % p;
    MulAssoc(256, q, p);
    ModUnique(d, 256 * p, q, low + 256 * (high % p));
  }

  /** `has_zero` is nonzero exactly when some byte is zero, whatever the bytes above it do. */
  lemma {:induction false} HasZeroIff(b: seq<Byte>)
    ensures Word(b) < Pow256(|b|)
    ensures HasZero(|b|, Word(b)) != 0 <==> 0 in b
  {
    WordBound(b);
    if b != [] {
      WordBound(b[1..]);
      var rest := HasZeroUnfold(|b|, b[0], Word(b[1..]));
      HasZeroIff(b[1..]);
      assert b == [b[0]] + b[1..];
    }
  }

  /** The first zero byte, least significant first. */
  ghost predicate FirstZero(b: seq<Byte>, k: nat) {
    k < |b| && b[k] == 0 && forall j :: 0 <= j < k ==> b[j] != 0
  }

  /** Its mark is the lowest set bit of the result: nothing below it is set, however wrong the bits above may be. */
  lemma {:induction false} LowestMark(b: seq<Byte>, k: nat)
    requires FirstZero(b, k)
    ensures Word(b) < Pow256(|b|)
    ensures HasZero(|b|, Word(b)) > 0 && TrailingZeros(HasZero(|b|, Word(b))) == 8 * k + 7
  {
    WordBound(b);
    WordBound(b[1..]);
    var rest := HasZeroUnfold(|b|, b[0], Word(b[1..]));
    if k == 0 {
      TrailingZerosOfMark(rest);
    } else {
      assert FirstZero(b[1..], k - 1);
      LowestMark(b[1..], k - 1);
      TrailingZerosShift(HasZero(|b| - 1, Word(b[1..])), 8);
    }
  }

  lemma {:induction false} TrailingZerosShift(x: nat, k: nat)
    requires x > 0
    ensures Shl(x, k) > 0 && TrailingZeros(Shl(x, k)) == k + TrailingZeros(x)
    ensures k == 8 ==> Shl(x, k) == 256 * x
  {
    if k > 0 { TrailingZerosShift(x, k - 1); }
    ShlByte(x);
  }

  lemma TrailingZerosOfMark(rest: nat)
    ensures TrailingZeros(0x80 + 256 * rest) == 7
  {
    var y1 := 2 * (1 + 2 * rest);
    var y3 := 4 * y1;
    var y5 := 4 * y3;
    TrailingZerosQuadruple(y1);
    TrailingZerosQuadruple(y3);
    TrailingZerosQuadruple(y5);
  }

  lemma TrailingZerosQuadruple(x: nat)
    requires x > 0
    ensures TrailingZeros(4 * x) == 2 + TrailingZeros(x)
  {
    assert (4 * x) / 2 == 2 * x && (2 * x) / 2 == x;
  }

  // ---------------------------------------------------------------- little endian: mask and count

  lemma {:induction false} Pow256IsPow2(n: nat)
    ensures Pow256(n) == Pow2(8 * n)
  {
    if n > 0 {
      Pow256IsPow2(n - 1);
      Pow2Add(8 * (n - 1), 8);
      Pow2Values();
    }
  }

  /** `(bits - 1) & ~bits` keeps exactly the bits below the lowest set one. */
  lemma {:induction false} BelowLowest(x: nat, w: nat, p: nat)
    requires p == Pow2(w) && 0 < x < p
    ensures And(x - 1, p - 1 - x) == Pow2(TrailingZeros(x)) - 1
  {
    var h, half := x / 2, Pow2(w - 1);
    if x % 2 == 1 {
      ComplementDisjoint(h, w - 1);
      BelowOdd(x, h, half);
    } else {
      BelowLowest(h, w - 1, half);
      BelowEven(x, h, half, Pow2(TrailingZeros(h)));
    }
  }

  lemma BelowOdd(x: nat, h: nat, p: nat)
    requires x == 2 * h + 1 && h < p && And(h, p - 1 - h) == 0
    ensures And(x - 1, 2 * p - 1 - x) == 0
  {
    AndStep(x - 1, h, 0, 2 * p - 1 - x, p - 1 - h, 0);
  }

  lemma BelowEven(x: nat, h: nat, p: nat, q: nat)
    requires x == 2 * h && 0 < h < p && And(h - 1, p - 1 - h) == q - 1
    ensures And(x - 1, 2 * p - 1 - x) == 2 * q - 1
  {
    AndStep(x - 1, h - 1, 1, 2 * p - 1 - x, p - 1 - h, 1);
  }

  /** One step of `&`, from the lowest digits. */
  lemma AndStep(a: nat, a1: nat, a0: nat, b: nat, b1: nat, b0: nat)
    requires a == 2 * a1 + a0 && b == 2 * b1 + b0 && a0 < 2 && b0 < 2
    ensures And(a, b) == (if a0 == 1 && b0 == 1 then 1 else 0) + 2 * And(a1, b1)
  {
    assert a / 2 == a1 && b / 2 == b1 && a % 2 == a0 && b % 2 == b0;
  }

  /** `create_zero_mask`. */
  function CreateZeroMask(n: nat, bits: nat): nat
    requires 0 < bits < Pow256(n)
  {
    Shr(And(bits - 1, Not(n, bits)), 7)
  }

  lemma HasZeroBound(n: nat, a: nat)
    requires a < Pow256(n)
    ensures HasZero(n, a) < Pow256(n)
  {
    var x := And(Minus(n, a, RepeatByte(n, 1)), Not(n, a));
    AndComm(x, RepeatByte(n, 0x80));
    AndBound(RepeatByte(n, 0x80), x);
    RepeatBound(n, 0x80);
  }

  lemma MaskShift(k: nat)
    ensures Shr(Pow2(8 * k + 7) - 1, 7) == Pow2(8 * k) - 1
  {
    ShrIsQuotient(Pow2(8 * k + 7) - 1, 7);
    Pow2Add(8 * k, 7);
    assert Pow2(7) == 0x80;
    DivUnique(Pow2(8 * k + 7) - 1, 0x80, Pow2(8 * k) - 1);
  }

  /** After `has_zero` and `create_zero_mask` the word is ones in exactly the bytes before the first zero. */
  lemma ZeroMask(b: seq<Byte>, k: nat)
    requires FirstZero(b, k)
    ensures Word(b) < Pow256(|b|)
    ensures var bits := HasZero(|b|, Word(b));
            0 < bits < Pow256(|b|) && CreateZeroMask(|b|, bits) == Pow256(k) - 1
  {
    LowestMark(b, k);
    HasZeroBound(|b|, Word(b));
    Pow256IsPow2(k);
    MaskShift(k);
    MaskBelow(|b|, HasZero(|b|, Word(b)), 8 * k + 7, Pow2(8 * k + 7) - 1, Pow256(k) - 1);
  }

  lemma MaskBelow(n: nat, bits: nat, t: nat, low: nat, mask: nat)
    requires 0 < bits < Pow256(n) && TrailingZeros(bits) == t && low == Pow2(t) - 1 && Shr(low, 7) == mask
    ensures CreateZeroMask(n, bits) == mask
  {
    var p := Pow256(n);
    Pow256IsPow2(n);
    BelowLowest(bits, 8 * n, p);
    MaskFromParts(n, bits, p, low, mask);
  }

  lemma MaskFromParts(n: nat, bits: nat, p: nat, low: nat, mask: nat)
    requires 0 < bits < p == Pow256(n) && And(bits - 1, p - 1 - bits) == low && Shr(low, 7) == mask
    ensures CreateZeroMask(n, bits) == mask
  {
  }

  /** The 64-bit `count_masked_bytes`. */
  function CountMaskedBytes64(mask: nat): nat {
    U64(mask * 0x0001_0203_0405_0608) / 0x100_0000_0000_0000
  }

  /** The 32-bit `count_masked_bytes`. */
  function CountMaskedBytes32(mask: nat): nat {
    And((0x0ff0001 + mask) / 0x80_0000, mask)
  }

  lemma Pow256Values()
    ensures Pow256(0) == 1 && Pow256(1) == 0x100 && Pow256(2) == 0x1_0000 && Pow256(3) == 0x100_0000
    ensures Pow256(4) == TWO32 && Pow256(5) == 0x100_0000_0000 && Pow256(6) == 0x1_0000_0000_0000
    ensures Pow256(7) == 0x100_0000_0000_0000 && Pow256(8) == TWO64
  {
    assert Pow256(1) == 256 * Pow256(0);
    assert Pow256(2) == 256 * Pow256(1);
    assert Pow256(3) == 256 * Pow256(2);
    assert Pow256(4) == 256 * Pow256(3);
    assert Pow256(5) == 256 * Pow256(4);
    assert Pow256(6) == 256 * Pow256(5);
    assert Pow256(7) == 256 * Pow256(6);
  }

  lemma CountTable64()
    ensures CountMaskedBytes64(0) == 0 && CountMaskedBytes64(0xff) == 1 && CountMaskedBytes64(0xffff) == 2
    ensures CountMaskedBytes64(0xff_ffff) == 3 && CountMaskedBytes64(0xffff_ffff) == 4
    ensures CountMaskedBytes64(0xff_ffff_ffff) == 5 && CountMaskedBytes64(0xffff_ffff_ffff) == 6
    ensures CountMaskedBytes64(0xff_ffff_ffff_ffff) == 7
  {
  }

  lemma Count64(k: nat)
    requires k < 8
    ensures CountMaskedBytes64(Pow256(k) - 1) == k
  {
    Pow256Values();
    CountTable64();
  }

  lemma Count32Value(k: nat)
    requires k < 4
    ensures (0x0ff0001 + Pow256(k) - 1) / 0x80_0000 % Pow256(k) == k
  {
    Pow256Values();
  }

  lemma Count32(k: nat)
    requires k < 4
    ensures CountMaskedBytes32(Pow256(k) - 1) == k
  {
    Pow256IsPow2(k);
    Count32Value(k);
    AndPowerMask((0x0ff0001 + Pow256(k) - 1) / 0x80_0000, Pow256(k), 8 * k);
  }

  /** `find_zero` on little endian is the index of the first zero byte, for 64-bit words ... */
  lemma FindZeroLe64(b: seq<Byte>, k: nat)
    requires |b| == 8 && FirstZero(b, k)
    ensures Word(b) < Pow256(8)
    ensures var bits := HasZero(8, Word(b));
            0 < bits < Pow256(8) && CountMaskedBytes64(CreateZeroMask(8, bits)) == k
  {
    ZeroMask(b, k);
    Count64(k);
  }

  /** ... and for 32-bit words. */
  lemma FindZeroLe32(b: seq<Byte>, k: nat)
    requires |b| == 4 && FirstZero(b, k)
    ensures Word(b) < Pow256(4)
    ensures var bits := HasZero(4, Word(b));
            0 < bits < Pow256(4) && CountMaskedBytes32(CreateZeroMask(4, bits)) == k
  {
    ZeroMask(b, k);
    Count32(k);
  }

  // ---------------------------------------------------------------- big endian

  lemma {:induction false} RepeatSum(n: nat, x: Byte, y: Byte)
    requires x + y == 255
    ensures RepeatByte(n, x) + RepeatByte(n, y) == Pow256(n) - 1
  {
    if n > 0 { RepeatSum(n - 1, x, y); }
  }

  /** Big endian `has_zero`: the stored word is `val | low_bits`, the result `(val + high_bits) & ~rhs`. */
  function HasZeroBe(n: nat, val: nat): nat
    requires val < Pow256(n)
  {
    var rhs := Or(val, RepeatByte(n, 0x7f));
    OrInWord(n, val, RepeatByte(n, 0x7f));
    And((val + RepeatByte(n, 0xfe) + 1) % Pow256(n), Not(n, rhs))
  }

  lemma OrInWord(n: nat, a: nat, b: nat)
    ensures b == RepeatByte(n, 0x7f) && a < Pow256(n) ==> Or(a, b) < Pow256(n)
  {
    RepeatBound(n, 0x7f);
    Pow256IsPow2(n);
    if b == RepeatByte(n, 0x7f) && a < Pow256(n) { OrBound(a, b, 8 * n); }
  }

  lemma AddIsSubtract(n: nat, val: nat)
    ensures (val + RepeatByte(n, 0xfe) + 1) % Pow256(n) == Minus(n, val, RepeatByte(n, 1))
  {
    RepeatSum(n, 0xfe, 1);
    var p, d := Pow256(n), val - RepeatByte(n, 1);
    assert d == (d / p) * p + d % p;
    MulAdd(d / p, 1, p);
    ModUnique(d + p, p, d / p + 1, d % p);
  }

  /** `m & ~(v | c)` is `(m & ~v) & ~c`. */
  lemma AndNotOr(m: nat, v: nat, c: nat, k: nat)
    requires v < Pow2(k) && c < Pow2(k)
    ensures Or(v, c) < Pow2(k)
    ensures And(m, Pow2(k) - 1 - Or(v, c)) == And(And(m, Pow2(k) - 1 - v), Pow2(k) - 1 - c)
  {
    OrBound(v, c, k);
    var x, y := And(m, Pow2(k) - 1 - Or(v, c)), And(And(m, Pow2(k) - 1 - v), Pow2(k) - 1 - c);
    forall i: nat ensures Bit(x, i) == Bit(y, i) {
      BitAnd(m, Pow2(k) - 1 - Or(v, c), i);
      BitNot(Or(v, c), k, i);
      BitOr(v, c, i);
      BitAnd(And(m, Pow2(k) - 1 - v), Pow2(k) - 1 - c, i);
      BitAnd(m, Pow2(k) - 1 - v, i);
      BitNot(v, k, i);
      BitNot(c, k, i);
    }
    SameBits(x, y);
  }

  /** The big-endian test computes the same word as the little-endian one. */
  lemma HasZeroBeSame(n: nat, val: nat)
    requires val < Pow256(n)
    ensures HasZeroBe(n, val) == HasZero(n, val)
  {
    var m, low, high := Minus(n, val, RepeatByte(n, 1)), RepeatByte(n, 0x7f), RepeatByte(n, 0x80);
    RepeatBound(n, 0x7f);
    RepeatSum(n, 0x80, 0x7f);
    Pow256IsPow2(n);
    var value := And(And(m, Not(n, val)), high);
    AndNotOrIn(m, val, low, 8 * n, Pow256(n), high);
    AddIsSubtract(n, val);
    HasZeroBeParts(n, val, m, low, Pow256(n), value);
    HasZeroParts(n, val, m, Not(n, val), high, value);
  }

  lemma HasZeroBeParts(n: nat, val: nat, sum: nat, low: nat, p: nat, value: nat)
    requires val < p == Pow256(n) && low == RepeatByte(n, 0x7f) && sum == (val + RepeatByte(n, 0xfe) + 1) % p
    requires Or(val, low) < p && And(sum, p - 1 - Or(val, low)) == value
    ensures HasZeroBe(n, val) == value
  {
  }

  lemma AndNotOrIn(m: nat, v: nat, c: nat, k: nat, p: nat, notC: nat)
    requires p == Pow2(k) && v < p && notC == p - 1 - c && c < p
    ensures Or(v, c) < p && And(m, p - 1 - Or(v, c)) == And(And(m, p - 1 - v), notC)
  {
    AndNotOr(m, v, c, k);
  }

  /** Filling the lower seven bits of a byte. */
  lemma OrLowBits(x: Byte)
    ensures Or(x, 0x7f) == if x >= 0x80 then 0xff else 0x7f
  {
    var c := if x >= 0x80 then 0xff else 0x7f;
    forall i: nat ensures Bit(Or(x, 0x7f), i) == Bit(c, i) {
      BitOr(x, 0x7f, i);
      LowBitsAt(x, i);
    }
    SameBits(Or(x, 0x7f), c);
  }

  lemma LowBitsAt(x: Byte, i: nat)
    ensures (Bit(x, i) || Bit(0x7f, i)) == Bit(if x >= 0x80 then 0xff else 0x7f, i)
  {
    Pow2Values();
    assert Pow2(7) == 0x80;
    BitMask(7, i);
    BitMask(8, i);
    if i == 7 { BitIsDigit(x, 7); }
    if i >= 8 { BitBound(x, 8, i); }
  }

  lemma AndLowBits(x: Byte)
    ensures And(x, 0x7f) == x % 0x80
  {
    assert Pow2(7) == 0x80;
    AndMask(x, 7);
  }

  function ByteAnd(x: Byte, y: Byte): Byte {
    AndBound(x, y);
    And(x, y)
  }

  function ByteOr(x: Byte, y: Byte): Byte {
    Pow2Values();
    OrBound(x, y, 8);
    Or(x, y)
  }

  function AndEach(b: seq<Byte>, x: Byte): (r: seq<Byte>)
    ensures |r| == |b| && forall i :: 0 <= i < |b| ==> r[i] == ByteAnd(b[i], x)
  {
    if b == [] then [] else [ByteAnd(b[0], x)] + AndEach(b[1..], x)
  }

  function OrEach(b: seq<Byte>, c: seq<Byte>): (r: seq<Byte>)
    requires |b| == |c|
    ensures |r| == |b| && forall i :: 0 <= i < |b| ==> r[i] == ByteOr(b[i], c[i])
  {
    if b == [] then [] else [ByteOr(b[0], c[0])] + OrEach(b[1..], c[1..])
  }

  function AddEach(b: seq<Byte>, x: Byte): (r: seq<Byte>)
    requires forall i :: 0 <= i < |b| ==> b[i] + x < 256
    ensures |r| == |b| && forall i :: 0 <= i < |b| ==> r[i] == b[i] + x
  {
    if b == [] then [] else [b[0] + x] + AddEach(b[1..], x)
  }

  function Fill(n: nat, x: Byte): (r: seq<Byte>)
    ensures |r| == n && forall i :: 0 <= i < n ==> r[i] == x
  {
    if n == 0 then [] else [x] + Fill(n - 1, x)
  }

  // Each word operation, byte by byte.

  lemma {:induction false} AndWords(b: seq<Byte>, x: Byte)
    ensures And(Word(b), RepeatByte(|b|, x)) == Word(AndEach(b, x))
  {
    if b != [] {
      AndWords(b[1..], x);
      var r := AndEach(b, x);
      assert r[1..] == AndEach(b[1..], x);
      AndByteValue(Word(b), b[0], Word(b[1..]), RepeatByte(|b|, x), x, RepeatByte(|b| - 1, x), r[0], Word(r[1..]));
    }
  }

  lemma {:induction false} OrWords(b: seq<Byte>, c: seq<Byte>)
    requires |b| == |c|
    ensures Or(Word(b), Word(c)) == Word(OrEach(b, c))
  {
    if b != [] {
      OrWords(b[1..], c[1..]);
      var r := OrEach(b, c);
      assert r[1..] == OrEach(b[1..], c[1..]);
      OrByteValue(Word(b), b[0], Word(b[1..]), Word(c), c[0], Word(c[1..]), r[0], Word(r[1..]));
    }
  }

  lemma {:induction false} AddWords(b: seq<Byte>, x: Byte)
    requires forall i :: 0 <= i < |b| ==> b[i] + x < 256
    ensures Word(b) + RepeatByte(|b|, x) == Word(AddEach(b, x))
  {
    if b != [] {
      AddWords(b[1..], x);
      assert AddEach(b, x)[1..] == AddEach(b[1..], x);
    }
  }

  lemma {:induction false} FillWord(n: nat, x: Byte)
    ensures Word(Fill(n, x)) == RepeatByte(n, x)
  {
    if n > 0 {
      FillWord(n - 1, x);
      assert Fill(n, x)[1..] == Fill(n - 1, x);
    }
  }

  /** `(val & low_bits) + low_bits`, or-ed with `rhs`, on one byte: only a zero byte keeps its top bit clear. */
  lemma PrepByte(x: Byte)
    ensures ByteAnd(x, 0x7f) + 0x7f < 256
    ensures ByteOr(ByteAnd(x, 0x7f) + 0x7f, ByteOr(x, 0x7f)) == if x == 0 then 0x7f else 0xff
  {
    AndLowBits(x);
    OrLowBits(x);
    var m: Byte := x % 0x80 + 0x7f;
    if x >= 0x80 { OrFull(m); } else { OrLowBits(m); }
  }

  lemma OrFull(m: Byte)
    ensures Or(m, 0xff) == 0xff
  {
    Pow2Values();
    OrLeastRight(m, 0xff);
    OrBound(m, 0xff, 8);
  }

  /** The word with 0x80 in each zero byte and nothing else. */
  function Marks(b: seq<Byte>): nat {
    if b == [] then 0 else (if b[0] == 0 then 0x80 else 0) + 256 * Marks(b[1..])
  }

  lemma {:induction false} ComplementMarks(b: seq<Byte>, t: seq<Byte>)
    requires |t| == |b| && forall i :: 0 <= i < |b| ==> t[i] == if b[i] == 0 then 0x7f else 0xff
    ensures Not(|b|, Word(t)) == Marks(b)
  {
    if b != [] { ComplementMarks(b[1..], t[1..]); }
  }

  /** `val & REPEAT_BYTE(x)`, byte by byte. */
  method AndRepeat(val: nat, n: nat, x: Byte, ghost b: seq<Byte>) returns (r: nat)
    requires val == Word(b) && n == |b|
    ensures r == Word(AndEach(b, x))
  {
    r := And(val, RepeatByte(n, x));
    AndWords(b, x);
  }

  method OrWord(v: nat, w: nat, ghost b: seq<Byte>, ghost c: seq<Byte>) returns (r: nat)
    requires v == Word(b) && w == Word(c) && |b| == |c|
    ensures r == Word(OrEach(b, c))
  {
    r := Or(v, w);
    OrWords(b, c);
  }

  /** The bytes of the word that big-endian `has_zero` stores: `val | low_bits`. */
  ghost function StoredBytes(b: seq<Byte>): (r: seq<Byte>)
    ensures |r| == |b| && forall i :: 0 <= i < |b| ==> r[i] == ByteOr(b[i], 0x7f)
  {
    OrEach(b, Fill(|b|, 0x7f))
  }

  /** The value big-endian `has_zero` leaves in `*data`. */
  method StoreData(val: nat, n: nat, ghost b: seq<Byte>) returns (data: nat)
    requires val == Word(b) && n == |b|
    ensures data == Word(StoredBytes(b))
  {
    FillWord(n, 0x7f);
    data := OrWord(val, RepeatByte(n, 0x7f), b, Fill(n, 0x7f));
  }

  method AddLow(low: nat, n: nat, ghost b: seq<Byte>) returns (sum: nat, ghost sums: seq<Byte>)
    requires low == Word(AndEach(b, 0x7f)) && n == |b|
    ensures sum == Word(sums) && |sums| == |b|
    ensures forall i :: 0 <= i < |b| ==> sums[i] == ByteAnd(b[i], 0x7f) + 0x7f
  {
    forall i | 0 <= i < |b| ensures ByteAnd(b[i], 0x7f) + 0x7f < 256 { PrepByte(b[i]); }
    sums := AddEach(AndEach(b, 0x7f), 0x7f);
    AddWords(AndEach(b, 0x7f), 0x7f);
    sum := low + RepeatByte(n, 0x7f);
  }

  lemma JoinedBytes(b: seq<Byte>, sums: seq<Byte>, rhs: seq<Byte>)
    requires |sums| == |rhs| == |b|
    requires forall i :: 0 <= i < |b| ==> sums[i] == ByteAnd(b[i], 0x7f) + 0x7f && rhs[i] == ByteOr(b[i], 0x7f)
    ensures Not(|b|, Word(OrEach(sums, rhs))) == Marks(b)
  {
    var t := OrEach(sums, rhs);
    forall i | 0 <= i < |b| ensures t[i] == if b[i] == 0 then 0x7f else 0xff { PrepByte(b[i]); }
    ComplementMarks(b, t);
  }

  /** Big endian `prep_zero_mask`: given what `has_zero` stored, it marks exactly the zero bytes. */
  method PrepZeroMask(val: nat, rhs: nat, n: nat, ghost b: seq<Byte>) returns (mask: nat)
    requires val == Word(b) && n == |b| && rhs == Word(StoredBytes(b))
    ensures mask == Marks(b)
  {
    var low := AndRepeat(val, n, 0x7f, b);
    var sum, sums := AddLow(low, n, b);
    var joined := OrWord(sum, rhs, sums, StoredBytes(b));
    JoinedBytes(b, sums, StoredBytes(b));
    mask := Not(n, joined);
  }

  /** The most significant nonzero byte of a word. */
  function TopByte(w: nat): nat {
    if w < 256 then 0 else 1 + TopByte(w / 256)
  }

  /** The last zero byte in significance order, which is the first in big-endian memory. */
  ghost predicate LastZero(b: seq<Byte>, h: nat) {
    h < |b| && b[h] == 0 && forall j :: h < j < |b| ==> b[j] != 0
  }

  lemma {:induction false} NoMarks(b: seq<Byte>)
    requires 0 !in b
    ensures Marks(b) == 0
  {
    if b != [] { NoMarks(b[1..]); }
  }

  lemma {:induction false} TopMark(b: seq<Byte>, h: nat)
    requires LastZero(b, h)
    ensures Marks(b) > 0 && TopByte(Marks(b)) == h
  {
    if h == 0 {
      NoMarks(b[1..]);
    } else {
      assert LastZero(b[1..], h - 1);
      TopMark(b[1..], h - 1);
      var low := if b[0] == 0 then 0x80 else 0;
      assert (low + 256 * Marks(b[1..])) / 256 == Marks(b[1..]);
    }
  }

  lemma {:induction false} TopMarkBounds(b: seq<Byte>, h: nat)
    requires LastZero(b, h)
    ensures 0x80 * Pow256(h) <= Marks(b) < 0x100 * Pow256(h)
  {
    if h == 0 {
      NoMarks(b[1..]);
    } else {
      assert LastZero(b[1..], h - 1);
      TopMarkBounds(b[1..], h - 1);
    }
  }

  /** `__fls` of the marks is the top bit of the last zero byte. */
  lemma TopMarkBit(b: seq<Byte>, h: nat)
    requires LastZero(b, h)
    ensures Marks(b) > 0 && ILog2(Marks(b)) == 8 * h + 7
  {
    TopMarkBounds(b, h);
    Pow256IsPow2(h);
    Pow2Values();
    Pow2Add(8 * h, 7);
    Pow2Add(8 * h, 8);
    BetweenPowers(ILog2(Marks(b)), 8 * h + 7, Marks(b));
  }

  lemma BetweenPowers(k: nat, l: nat, x: nat)
    requires Pow2(k) <= x < Pow2(k + 1) && Pow2(l) <= x < Pow2(l + 1)
    ensures k == l
  {
    if k < l { Pow2Monotone(k + 1, l); }
    if l < k { Pow2Monotone(l + 1, k); }
  }

  /** Big endian `zero_bytemask`: ones in exactly the bytes that come before the first zero byte in memory. */
  method ZeroBytemaskBe(mask: nat, n: nat, ghost b: seq<Byte>, ghost h: nat) returns (r: nat)
    requires n == |b| && LastZero(b, h) && mask == Marks(b)
    ensures r == Pow256(n) - Pow256(h + 1)
  {
    TopMarkBit(b, h);
    Pow256Grows(h + 1, n);
    r := ShiftedOnes(Pow256(n), ILog2(mask), h);
  }

  /** `~1ul << f` on a word. */
  method ShiftedOnes(p: nat, f: nat, ghost h: nat) returns (r: nat)
    requires f == 8 * h + 7 && Pow256(h + 1) <= p
    ensures r == p - Pow256(h + 1)
  {
    r := (p - 2) * Pow2(f) % p;
    Pow256IsPow2(h + 1);
    ShiftWraps(p, Pow2(f));
  }

  lemma ShiftWraps(p: nat, d: nat)
    requires 0 < d && 2 * d <= p
    ensures (p - 2) * d % p == p - 2 * d
  {
    assert (p - 2) * d == (d - 1) * p + (p - 2 * d);
    ModUnique((p - 2) * d, p, d - 1, p - 2 * d);
  }

  lemma {:induction false} Pow256Grows(a: nat, b: nat)
    requires a <= b
    ensures Pow256(a) <= Pow256(b)
    decreases b - a
  {
    if a < b { Pow256Grows(a + 1, b); }
  }

  /** Big endian `find_zero`: halving the word; `wide` is CONFIG_64BIT. */
  method FindZeroBe(mask0: nat, wide: bool) returns (byte: nat)
    requires mask0 < if wide then TWO64 else TWO32
    ensures byte + TopByte(mask0) == if wide then 7 else 3
  {
    var mask := mask0;
    byte := 0;
    if wide {
      if mask / 0x1_0000_0000 != 0 {
        TopByteShift(mask, 4);
        mask := mask / 0x1_0000_0000;
      } else {
        byte := 4;
      }
    }
    assert mask < TWO32 && byte + TopByte(mask0) == TopByte(mask) + if wide then 4 else 0;
    byte := FindInHalf(mask, byte);
  }

  method FindInHalf(mask0: nat, start: nat) returns (byte: nat)
    requires mask0 < TWO32
    ensures byte + TopByte(mask0) == start + 3
  {
    var mask := mask0;
    byte := start;
    if mask / 0x1_0000 != 0 {
      TopByteShift(mask, 2);
      mask := mask / 0x1_0000;
    } else {
      byte := byte + 2;
    }
    byte := if mask / 0x100 != 0 then byte else byte + 1;
  }

  /** Dropping whole low bytes that are not the top one. */
  lemma {:induction false} TopByteShift(w: nat, k: nat)
    requires w >= Pow256(k)
    ensures TopByte(w) == k + TopByte(w / Pow256(k))
    ensures k == 2 ==> Pow256(k) == 0x1_0000
    ensures k == 4 ==> Pow256(k) == 0x1_0000_0000
    decreases k
  {
    Pow256Values();
    if k > 0 {
      var p := Pow256(k - 1);
      assert w / 256 >= p;
      TopByteShift(w / 256, k - 1);
      DivDiv(w, 256, p);
    }
  }

  lemma ZeroReversed(m: seq<Byte>, b: seq<Byte>)
    requires b == Reversed(m)
    ensures 0 in m <==> 0 in b
  {
    if 0 in m { var i :| 0 <= i < |m| && m[i] == 0; assert b[|m| - 1 - i] == 0; }
    if 0 in b { var i :| 0 <= i < |m| && b[i] == 0; assert m[|m| - 1 - i] == 0; }
  }

  /** `find_zero(create_zero_mask(prep_zero_mask(val, rhs)))` for a word with a zero byte. */
  method LocateBe(b: seq<Byte>, wide: bool) returns (k: nat)
    requires |b| == (if wide then 8 else 4) && 0 in b
    ensures k < |b| && LastZero(b, |b| - 1 - k)
  {
    ghost var h := SomeLastZero(b);
    var n, val := |b|, Word(b);
    TopMark(b, h);
    MarksBound(b);
    Pow256Values();
    var data := StoreData(val, n, b);
    var mask := PrepZeroMask(val, data, n, b);
    k := FindZeroBe(mask, wide);
  }

  /**
   The whole big-endian search over the bytes `m` in memory order: `has_zero` decides whether
   there is a zero byte, and the masks then locate the first one.
   */
  method SearchBe(m: seq<Byte>, wide: bool) returns (found: bool, k: nat)
    requires |m| == if wide then 8 else 4
    ensures found <==> 0 in m
    ensures found ==> FirstZero(m, k)
  {
    var b := Reversed(m);
    HasZeroIff(b);
    HasZeroBeSame(|m|, Word(b));
    ZeroReversed(m, b);
    found, k := HasZeroBe(|m|, Word(b)) != 0, 0;
    if found {
      k := LocateBe(b, wide);
      FirstIsLastReversed(m, b, k);
    }
  }

  lemma FirstIsLastReversed(m: seq<Byte>, b: seq<Byte>, k: nat)
    requires b == Reversed(m) && k < |m| && LastZero(b, |m| - 1 - k)
    ensures FirstZero(m, k)
  {
    assert m[k] == b[|m| - 1 - k];
    forall j | 0 <= j < k ensures m[j] != 0 {
      assert m[j] == b[|m| - 1 - j];
    }
  }

  lemma {:induction false} MarksBound(b: seq<Byte>)
    ensures Marks(b) < Pow256(|b|)
  {
    if b != [] { MarksBound(b[1..]); }
  }

  lemma {:induction false} SomeLastZero(b: seq<Byte>) returns (h: nat)
    requires 0 in b
    ensures LastZero(b, h)
  {
    var n := |b|;
    if b[n - 1] == 0 {
      h := n - 1;
    } else {
      assert b == b[..n - 1] + [b[n - 1]];
      h := SomeLastZero(b[..n - 1]);
    }
  }

  lemma {:induction false} SomeFirstZero(b: seq<Byte>) returns (k: nat)
    requires 0 in b
    ensures FirstZero(b, k)
  {
    if b[0] == 0 {
      k := 0;
    } else {
      assert b == [b[0]] + b[1..];
      var k' := SomeFirstZero(b[1..]);
      k := k' + 1;
    }
  }

  /** The whole little-endian search over the bytes `b` in memory order. */
  method SearchLe(b: seq<Byte>, wide: bool) returns (found: bool, k: nat)
    requires |b| == if wide then 8 else 4
    ensures found <==> 0 in b
    ensures found ==> FirstZero(b, k)
  {
    var n, a := |b|, Word(b);
    HasZeroIff(b);
    var bits := HasZero(n, a);
    found, k := bits != 0, 0;
    if found {
      ghost var k0 := SomeFirstZero(b);
      if wide { FindZeroLe64(b, k0); } else { FindZeroLe32(b, k0); }
      var mask := CreateZeroMask(n, bits);
      k := if wide then CountMaskedBytes64(mask) else CountMaskedBytes32(mask);
    }
  }
}
