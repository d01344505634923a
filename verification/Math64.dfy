/**
 The widening helpers of linux/math64.h for machines without a 128-bit type: a 64 x 64
 multiplication followed by a right shift, and `a * mul / divisor` by two chained
 divisions with `do_div`.
 */
module Math64 {
  import opened Bits
  import Div64

  // ---------------------------------------------------------------- mul_u64_u64_shr

  /** Adding the partial products column by column, 32 bits at a time. */
  lemma ColumnSums(rl: nat, rm: nat, rn: nat, rh: nat, c1: nat, c2: nat)
    requires c1 == rl / TWO32 + rm % TWO32 + rn % TWO32
    requires c2 == c1 / TWO32 + rm / TWO32 + rn / TWO32 + rh % TWO32
    ensures rl + (rm + rn) * TWO32 + rh * TWO64
         == rl % TWO32 + (c1 % TWO32) * TWO32 + ((c2 % TWO32) + (c2 / TWO32 + rh / TWO32) * TWO32) * TWO64
  {
  }

  /** The full 128-bit product as two 64-bit words. */
  method Mul128(a: nat, b: nat) returns (lo: nat, hi: nat)
    requires a < TWO64 && b < TWO64
    ensures lo < TWO64 && hi < TWO64 && a * b == hi * TWO64 + lo
  {
    var rl, rm, rn, rh := Div64.Partials(a, b);
    ProductBound(a, b);
    lo, hi := AddColumns(rl, rm, rn, rh, a * b);
  }

  method AddColumns(rl: nat, rm: nat, rn: nat, rh: nat, ghost product: nat) returns (lo: nat, hi: nat)
    requires product == rl + (rm + rn) * TWO32 + rh * TWO64 && product < TWO64 * TWO64
    ensures lo < TWO64 && hi < TWO64 && product == hi * TWO64 + lo
  {
    var c := rl / TWO32 + rm % TWO32 + rn % TWO32;
    lo := JoinWord(rl % TWO32, c % TWO32);
    var c2 := c / TWO32 + rm / TWO32 + rn / TWO32 + rh % TWO32;
    ColumnSums(rl, rm, rn, rh, c, c2);
    var top := c2 / TWO32 + rh / TWO32;
    TopFits(product, lo, c2 % TWO32, top);
    assert U32(top) == top;
    hi := JoinWord(c2 % TWO32, U32(top));
  }

  method JoinWord(low: nat, high: nat) returns (word: nat)
    requires low < TWO32 && high < TWO32
    ensures word == low + high * TWO32 && word < TWO64
  {
    word := low + high * TWO32;
  }

  lemma ProductBound(a: nat, b: nat)
    requires a < TWO64 && b < TWO64
    ensures a * b < TWO64 * TWO64
  {
    MulStrict(a, TWO64, b);
    MulStrict(b, TWO64, TWO64);
  }

  lemma TopFits(product: nat, lo: nat, mid: nat, top: nat)
    requires product == lo + (mid + top * TWO32) * TWO64 && product < TWO64 * TWO64
    ensures top < TWO32
  {
  }

  /** Shifting a two-word number right by less than a word; `p` is 2^s and `g` is 2^(64 - s). */
  lemma ShiftTwoWords(hi: nat, lo: nat, p: nat, g: nat)
    requires p > 0 && g * p == TWO64
    ensures (hi * TWO64 + lo) / p == hi * g + lo / p
  {
    var q, r := lo / p, lo % p;
    assert lo == q * p + r;
    MulAssoc(hi, g, p);
    MulAdd(hi * g, q, p);
    DivUnique(hi * TWO64 + lo, p, hi * g + q);
  }

  /** Bits shifted past the top of a word are lost and the rest stay above the low part. */
  lemma LeftPart(hi: nat, p: nat, g: nat)
    requires p > 0 && g * p == TWO64
    ensures (hi * g) % TWO64 == (hi % p) * g
    ensures (hi % p) * g <= TWO64 - g
  {
    var q, r := hi / p, hi % p;
    assert hi == q * p + r;
    MulAdd(q * p, r, g);
    MulAssoc(q, p, g);
    MulStrict(r, p - 1, g);
    MulAdd(p, -1, g);
    MulNonnegative(r, g);
    ModUnique(hi * g, TWO64, q, r * g);
  }

  lemma RightPart(lo: nat, p: nat, g: nat)
    requires lo < TWO64 && p > 0 && g * p == TWO64
    ensures lo / p < g
  {
    assert lo == (lo / p) * p + lo % p;
    MulStrict(g, lo / p, p);
  }

  lemma WordSplit(s: nat)
    requires s <= 64
    ensures Pow2(64 - s) * Pow2(s) == TWO64
  {
    Pow2Values();
    Pow2Add(64 - s, s);
  }

  /** `(rl >> shift) | (rh << (64 - shift))`. */
  method FunnelShift(hi: nat, lo: nat, s: nat) returns (res: nat)
    requires hi < TWO64 && lo < TWO64 && 0 < s < 64
    ensures res == U64((hi * TWO64 + lo) / Pow2(s))
  {
    var g := 64 - s;
    ghost var kept := hi % Pow2(s);
    WordSplit(s);
    ShrIsQuotient(lo, s);
    ShlIsProduct(hi, g);
    LeftPart(hi, Pow2(s), Pow2(g));
    RightPart(lo, Pow2(s), Pow2(g));
    ShlIsProduct(kept, g);
    OrDisjoint(Shr(lo, s), kept, g);
    res := Or(Shr(lo, s), U64(Shl(hi, g)));
    ShiftTwoWords(hi, lo, Pow2(s), Pow2(g));
    WrapSum(hi * Pow2(g), lo / Pow2(s), kept * Pow2(g));
  }

  lemma WrapSum(a: nat, b: nat, low: nat)
    requires a % TWO64 == low && low + b < TWO64
    ensures U64(a + b) == low + b
  {
  }

  /** The shift that takes place: from one word on only the lowest six bits of the count matter. */
  function Effective(shift: nat): nat {
    if shift < 64 then shift else 64 + shift % 64
  }

  /**
   `mul_u64_u64_shr` without a 128-bit type. Up to a count of 127 the result is
   `(a * b) >> shift`, truncated to 64 bits; from 128 on it is that exactly when the product
   has no bit the smaller shift would leave.
   */
  method MulU64U64Shr(a: nat, b: nat, shift: nat) returns (res: nat)
    requires a < TWO64 && b < TWO64
    ensures res == U64(a * b / Pow2(Effective(shift)))
    ensures shift < 128 ==> res == U64(a * b / Pow2(shift))
    ensures shift >= 64 ==> res == U64(a * b / Pow2(64 + shift % 64))
    ensures shift >= 128 ==> (res == a * b / Pow2(shift) <==> a * b < Pow2(Effective(shift)))
  {
    var lo, hi := Mul128(a, b);
    res := ShiftProduct(lo, hi, shift, a * b);
  }

  /** The shift of the two words of a product. */
  method ShiftProduct(lo: nat, hi: nat, shift: nat, ghost product: nat) returns (res: nat)
    requires lo < TWO64 && hi < TWO64 && product == hi * TWO64 + lo
    ensures res == U64(product / Pow2(Effective(shift)))
    ensures shift < 128 ==> res == U64(product / Pow2(shift))
    ensures shift >= 128 ==> (res == product / Pow2(shift) <==> product < Pow2(Effective(shift)))
  {
    if shift == 0 {
      ModUnique(product, TWO64, hi, lo);
      res := lo;
    } else if shift < 64 {
      res := FunnelShift(hi, lo, shift);
    } else {
      res := ShiftHigh(hi, lo, shift);
      if shift >= 128 { FarShift(hi, lo, product, shift, res); }
    }
  }

  lemma FarShift(hi: nat, lo: nat, product: nat, shift: nat, res: nat)
    requires hi < TWO64 && lo < TWO64 && product == hi * TWO64 + lo && shift >= 128
    requires res == U64(product / Pow2(Effective(shift)))
    ensures res == product / Pow2(shift) <==> product < Pow2(Effective(shift))
  {
    TwoWords(shift);
    HighWord(product, hi, lo, shift % 64);
    ShiftedOut(product, Pow2(Effective(shift)), Pow2(shift), res);
  }

  /** From 128 on the true quotient is zero. */
  lemma ShiftedOut(x: nat, p: nat, q: nat, res: nat)
    requires x < q && p > 0 && x / p < TWO64 && res == U64(x / p)
    ensures res == x / q <==> x < p
  {
    BelowDivisor(x, q);
    Div64.Fits64(x / p);
    BelowDivisor(x, p);
  }

  lemma TwoWords(shift: nat)
    requires shift >= 128
    ensures Pow2(shift) >= 0x1_0000_0000_0000_0000_0000_0000_0000_0000
  {
    Pow2Values();
    Pow2Add(64, 64);
    Pow2Monotone(128, shift);
  }

  lemma BelowDivisor(x: nat, d: nat)
    requires d > 0
    ensures x / d == 0 <==> x < d
  {
    if x < d { DivUnique(x, d, 0); }
  }

  lemma HighWord(x: nat, hi: nat, lo: nat, t: nat)
    requires hi < TWO64 && lo < TWO64 && x == hi * TWO64 + lo
    ensures x < 0x1_0000_0000_0000_0000_0000_0000_0000_0000 && x / Pow2(64 + t) < TWO64
  {
    Pow2Values();
    Pow2Add(64, t);
    ModUnique(x, TWO64, hi, lo);
    DivDiv(x, TWO64, Pow2(t));
    Div64.QuotientAtMost(hi, Pow2(t));
  }

  /** `rh >> (shift & 63)` for a shift of one word or more. */
  method ShiftHigh(hi: nat, ghost lo: nat, shift: nat) returns (res: nat)
    requires hi < TWO64 && lo < TWO64 && shift >= 64
    ensures res == U64((hi * TWO64 + lo) / Pow2(Effective(shift)))
  {
    var t := shift % 64;
    res := Shr(hi, t);
    ShrIsQuotient(hi, t);
    Pow2Values();
    Pow2Add(64, t);
    ModUnique(hi * TWO64 + lo, TWO64, hi, lo);
    DivDiv(hi * TWO64 + lo, TWO64, Pow2(t));
    Div64.QuotientAtMost(hi, Pow2(t));
    Div64.Fits64(res);
  }

  // ---------------------------------------------------------------- mul_u64_u32_div

  /** Two-step long division in base 2^32. */
  lemma LongDivision(top: nat, low: nat, d: nat)
    requires d > 0 && low < TWO32
    ensures var q1, r1 := top / d, top % d;
            (top * TWO32 + low) / d == q1 * TWO32 + (r1 * TWO32 + low) / d
  {
    var q1, r1 := top / d, top % d;
    var y := r1 * TWO32 + low;
    var q0 := y / d;
    assert top == q1 * d + r1 && y == q0 * d + y % d;
    assert top * TWO32 + low == (q1 * TWO32 + q0) * d + y % d by {
      MulAdd(q1 * d, r1, TWO32);
      MulAssoc(q1, d, TWO32);
      MulAssoc(q1, TWO32, d);
      MulAdd(q1 * TWO32, q0, d);
    }
    DivUnique(top * TWO32 + low, d, q1 * TWO32 + q0);
  }

  lemma SecondDigitFits(r1: nat, low: nat, d: nat)
    requires r1 < d && low < TWO32
    ensures (r1 * TWO32 + low) / d < TWO32
  {
    var y := r1 * TWO32 + low;
    assert y == (y / d) * d + y % d;
    MulStrict(TWO32, y / d, d);
  }

  method JoinDigits(q1: nat, q0: nat) returns (res: nat)
    requires q0 < TWO32
    ensures res == U64(q1 * TWO32 + q0)
  {
    res := U32(q1) * TWO32 + U32(q0);
  }

  lemma SplitFactor(a: nat, mul: nat)
    ensures a * mul == (a / TWO32 * mul) * TWO32 + a % TWO32 * mul
  {
    var hi, lo := a / TWO32, a % TWO32;
    assert a == hi * TWO32 + lo;
    MulAdd(hi * TWO32, lo, mul);
    MulAssoc(TWO32, hi, mul);
  }

  /** The 96-bit product, as the part above bit 32 and the lowest 32 bits. */
  method MulByWord(a: nat, mul: nat) returns (top: nat, low: nat)
    requires a < TWO64 && mul < TWO32
    ensures a * mul == top * TWO32 + low && top < TWO64 && low < TWO32
  {
    var rl, rh := a % TWO32 * mul, a / TWO32 * mul;
    SplitFactor(a, mul);
    Div64.Product32(a % TWO32, mul);
    Div64.Product32(a / TWO32, mul);
    top, low := SplitLow(rh, rl, a * mul);
  }

  method SplitLow(rh: nat, rl: nat, ghost product: nat) returns (top: nat, low: nat)
    requires product == rh * TWO32 + rl && rl <= 0xFFFF_FFFE_0000_0001 && rh <= 0xFFFF_FFFE_0000_0001
    ensures product == top * TWO32 + low && top < TWO64 && low < TWO32
  {
    top, low := rh + rl / TWO32, rl % TWO32;
  }

  /** `mul_u64_u32_div`: `a * mul / divisor` truncated to 64 bits, with both divisions done by `do_div`. */
  method MulU64U32Div(a: nat, mul: nat, divisor: nat, constant: bool, ok: bool) returns (res: nat)
    requires a < TWO64 && mul < TWO32 && 1 <= divisor < TWO32
    ensures res == U64(a * mul / divisor)
  {
    var top, low := MulByWord(a, mul);
    var rh, rlHigh := Div64.DoDiv(top, divisor, constant, ok);
    var rl, rem := Div64.DoDiv(rlHigh * TWO32 + low, divisor, constant, ok);
    LongDivision(top, low, divisor);
    SecondDigitFits(rlHigh, low, divisor);
    res := JoinDigits(rh, rl);
  }
}
