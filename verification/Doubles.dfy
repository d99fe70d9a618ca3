/** Integers as doubles: `as_f64` of `serde_json`, rounding to nearest with ties to even, as
    clause 4.3.1 of IEEE Std 754-2008 has it. */
module Doubles {
  import opened Text

  function TwoTo(n: nat): (r: nat)
    ensures r > 0
  {
    if n == 0 then 1 else 2 * TwoTo(n - 1)
  }

  /** The place of the highest bit. */
  function HighBit(m: nat): (e: nat)
    requires m > 0
    ensures TwoTo(e) <= m < TwoTo(e + 1)
  {
    if m == 1 then 0 else 1 + HighBit(m / 2)
  }

  /** `m` over two to the `s`, to the nearest integer and of two to the even one. */
  function Rounded(m: nat, s: nat): nat {
    var q, r := m / TwoTo(s), m % TwoTo(s);
    if 2 * r > TwoTo(s) || (2 * r == TwoTo(s) && q % 2 == 1) then q + 1 else q
  }

  /** The 53 bits of the significand, or one more when rounding carries. */
  function Significand(m: nat): nat
    requires m > 0
  {
    if HighBit(m) <= 52 then m * TwoTo(52 - HighBit(m)) else Rounded(m, HighBit(m) - 52)
  }

  const SIGN: nat := 0x8000_0000_0000_0000
  const ONE: nat := 0x10_0000_0000_0000

  /** The bits of the double nearest to an integer of 64 bits; there are no others. */
  function NearestBits(i: int): nat {
    var m := if i < 0 then -i else i;
    if m == 0 || m >= U64 then 0
    else BitsOf(if i < 0 then SIGN else 0, HighBit(m), Significand(m))
  }

  /** The highest bit of a significand is not written: it counts as one more exponent. */
  function BitsOf(sign: nat, e: nat, significand: nat): nat { sign + (e + 1022) * ONE + significand }

  lemma Sizes()
    ensures TwoTo(52) == ONE && TwoTo(53) == 2 * ONE && TwoTo(64) == U64 && TwoTo(63) == SIGN
  {
    assert TwoTo(4) == 16;
    assert TwoTo(8) == 256;
    assert TwoTo(12) == 0x1000;
    assert TwoTo(16) == 0x1_0000;
    assert TwoTo(20) == 0x10_0000;
    assert TwoTo(24) == 0x100_0000;
    assert TwoTo(28) == 0x1000_0000;
    assert TwoTo(32) == 0x1_0000_0000;
    assert TwoTo(36) == 0x10_0000_0000;
    assert TwoTo(40) == 0x100_0000_0000;
    assert TwoTo(44) == 0x1000_0000_0000;
    assert TwoTo(48) == 0x1_0000_0000_0000;
    assert TwoTo(52) == 0x10_0000_0000_0000;
    assert TwoTo(56) == 0x100_0000_0000_0000;
    assert TwoTo(60) == 0x1000_0000_0000_0000;
  }

  lemma {:induction false} TwoToAdds(a: nat, b: nat)
    ensures TwoTo(a + b) == TwoTo(a) * TwoTo(b)
  {
    if a > 0 { TwoToAdds(a - 1, b); }
  }

  lemma {:induction false} TwoToGrows(a: nat, b: nat)
    requires a <= b
    ensures TwoTo(a) <= TwoTo(b)
  {
    if a < b { TwoToGrows(a, b - 1); }
  }

  lemma ShortFits(m: nat, e: nat)
    requires TwoTo(e) <= m < TwoTo(e + 1) && e <= 52
    ensures ONE <= m * TwoTo(52 - e) < 2 * ONE
  {
    Sizes();
    TwoToAdds(e, 52 - e);
    TwoToAdds(e + 1, 52 - e);
    Scaled(m, TwoTo(e), TwoTo(e + 1), TwoTo(52 - e));
    hide TwoTo;
  }

  lemma LongFits(m: nat, e: nat)
    requires TwoTo(e) <= m < TwoTo(e + 1) && e > 52
    ensures ONE <= m / TwoTo(e - 52) < 2 * ONE
  {
    Sizes();
    TwoToAdds(e - 52, 52);
    TwoToAdds(e - 52, 53);
    Divided(m, TwoTo(e - 52), ONE);
    hide TwoTo;
  }

  /** A significand has its highest bit in place 52, but for a carry. */
  lemma SignificandFits(m: nat)
    requires 0 < m < U64
    ensures ONE <= Significand(m) <= 2 * ONE && HighBit(m) < 64
  {
    hide HighBit, TwoTo;
    Sizes();
    var e := HighBit(m);
    if e >= 64 { TwoToGrows(64, e); }
    if e <= 52 { ShortFits(m, e); } else { LongFits(m, e); }
  }

  lemma Scaled(m: nat, low: nat, high: nat, f: nat)
    requires low <= m < high && f > 0
    ensures low * f <= m * f < high * f
  {
  }

  lemma TimesGrows(d: nat, a: nat, b: nat)
    requires a <= b
    ensures d * a <= d * b
  {
  }

  lemma Divided(m: nat, d: nat, one: nat)
    requires d > 0 && d * one <= m < d * (2 * one)
    ensures one <= m / d < 2 * one
  {
    var q := m / d;
    assert d * q <= m < d * (q + 1);
    if q < one { TimesGrows(d, q + 1, one); }
    if q >= 2 * one { TimesGrows(d, 2 * one, q); }
  }

  // ---------------------------------------------------------------- what the bits say

  function ExponentOf(b: nat): nat { b / ONE % 0x800 }

  function FractionOf(b: nat): nat { b % ONE }

  predicate IsNegative(b: nat) { b / SIGN % 2 == 1 }

  /** A double with a significand of 53 bits is `m`, by its magnitude. */
  predicate HasMagnitude(b: nat, m: nat) {
    ExponentOf(b) >= 1023 && (ONE + FractionOf(b)) * TwoTo(ExponentOf(b) - 1023) == m * ONE
  }

  /** No double is nearer to `m`: it lies within half the distance of the doubles around it. */
  predicate IsNearest(b: nat, m: nat) {
    ExponentOf(b) >= 1075 &&
    var step := TwoTo(ExponentOf(b) - 1075);
    var value := (ONE + FractionOf(b)) * step;
    2 * value <= 2 * m + step && 2 * m <= 2 * value + step
  }

  lemma PartsOfBits(sign: nat, e: nat, sig: nat)
    requires (sign == 0 || sign == SIGN) && e < 64 && ONE <= sig <= 2 * ONE
    ensures
      var b := BitsOf(sign, e, sig);
      (IsNegative(b) <==> sign == SIGN) && b < U64 &&
      (if sig < 2 * ONE then ExponentOf(b) == e + 1023 && FractionOf(b) == sig - ONE
       else ExponentOf(b) == e + 1024 && FractionOf(b) == 0)
  {
  }

  lemma NearestIsFinite(i: int)
    ensures NearestBits(i) < U64 && ExponentOf(NearestBits(i)) != 0x7FF
  {
    var m := if i < 0 then -i else i;
    if 0 < m < U64 {
      SignificandFits(m);
      PartsOfBits(if i < 0 then SIGN else 0, HighBit(m), Significand(m));
    }
  }

  lemma SignificandTimes(m: nat)
    requires 0 < m < U64 && HighBit(m) <= 52
    ensures Significand(m) * TwoTo(HighBit(m)) == m * ONE
  {
    ShiftedBack(m, HighBit(m));
    hide HighBit, TwoTo, ONE;
  }

  lemma ShiftedBack(m: nat, e: nat)
    requires e <= 52
    ensures m * TwoTo(52 - e) * TwoTo(e) == m * ONE
  {
    Sizes();
    TwoToAdds(e, 52 - e);
    Reassociated(m, TwoTo(e), TwoTo(52 - e));
    hide TwoTo;
  }

  lemma Reassociated(m: nat, a: nat, b: nat)
    ensures m * b * a == m * (a * b)
  {
  }

  lemma RoundedIsNear(m: nat, s: nat)
    ensures
      var value, step := Rounded(m, s) * TwoTo(s), TwoTo(s);
      2 * value <= 2 * m + step && 2 * m <= 2 * value + step
  {
    var d := TwoTo(s);
    hide TwoTo;
    assert m == m / d * d + m % d;
    assert (m / d + 1) * d == m / d * d + d;
  }

  /** The value of the bits, carry or not. */
  lemma ValueOfBits(sign: nat, e: nat, sig: nat)
    requires (sign == 0 || sign == SIGN) && e < 64 && ONE <= sig <= 2 * ONE
    ensures
      var b := BitsOf(sign, e, sig);
      ExponentOf(b) >= e + 1023 && (ONE + FractionOf(b)) * TwoTo(ExponentOf(b) - 1023) == sig * TwoTo(e) &&
      (e >= 52 ==>
         (ONE + FractionOf(b)) * TwoTo(ExponentOf(b) - 1075) == sig * TwoTo(e - 52) &&
         TwoTo(ExponentOf(b) - 1075) >= TwoTo(e - 52))
  {
    PartsOfBits(sign, e, sig);
    assert TwoTo(e + 1) == 2 * TwoTo(e);
    if e >= 52 { assert TwoTo(e - 51) == 2 * TwoTo(e - 52); }
    hide ExponentOf, FractionOf, TwoTo, BitsOf;
  }

  /** Every integer of at most 53 bits is a double itself. */
  lemma IntegersAreExact(i: int)
    requires -0x20_0000_0000_0000 < i < 0x20_0000_0000_0000 && i != 0
    ensures HasMagnitude(NearestBits(i), if i < 0 then -i else i) && (IsNegative(NearestBits(i)) <==> i < 0)
  {
    var m, sign := if i < 0 then -i else i, if i < 0 then SIGN else 0;
    SignificandFits(m);
    Sizes();
    if HighBit(m) >= 53 { TwoToGrows(53, HighBit(m)); }
    hide HighBit, TwoTo, ExponentOf, FractionOf, IsNegative, Significand, BitsOf, ONE, SIGN;
    PartsOfBits(sign, HighBit(m), Significand(m));
    ValueOfBits(sign, HighBit(m), Significand(m));
    SignificandTimes(m);
  }

  lemma LongSignificand(m: nat)
    requires 0x20_0000_0000_0000 <= m < U64
    ensures 53 <= HighBit(m) < 64 && Significand(m) == Rounded(m, HighBit(m) - 52)
  {
    SignificandFits(m);
    Sizes();
    if HighBit(m) < 53 { TwoToGrows(HighBit(m) + 1, 53); }
    hide TwoTo, Rounded;
  }

  lemma RoundedBits(sign: nat, e: nat, m: nat)
    requires (sign == 0 || sign == SIGN) && 52 <= e < 64 && ONE <= Rounded(m, e - 52) <= 2 * ONE
    ensures IsNearest(BitsOf(sign, e, Rounded(m, e - 52)), m)
  {
    hide TwoTo, Rounded, ExponentOf, FractionOf, BitsOf, ONE, SIGN;
    ValueOfBits(sign, e, Rounded(m, e - 52));
    RoundedIsNear(m, e - 52);
  }

  /** And a longer one is read as a double nearest to it. */
  lemma LongIntegersAreNearest(i: int)
    requires (0x20_0000_0000_0000 <= i || i <= -0x20_0000_0000_0000) && i < U64 && -i < U64
    ensures IsNearest(NearestBits(i), if i < 0 then -i else i) && (IsNegative(NearestBits(i)) <==> i < 0)
  {
    hide HighBit, IsNegative, IsNearest, Significand, Rounded, BitsOf, ONE;
    var m, sign := if i < 0 then -i else i, if i < 0 then SIGN else 0;
    SignificandFits(m);
    LongSignificand(m);
    PartsOfBits(sign, HighBit(m), Significand(m));
    RoundedBits(sign, HighBit(m), m);
  }
}
