/**
 The floating-point remainder by shifting and subtracting, on the bits of a double and on the
 64-bit mantissas of long doubles.
 */
module Fmod {
  import opened Bits

  const BIT52 := 0x10_0000_0000_0000
  const BIAS := 1100  // scales exponents to natural numbers in the proofs

  // ---------- remainders ----------

  function Rem(x: nat, m: nat): (r: nat)
    requires m > 0
    ensures r < m
  {
    x % m
  }

  lemma RemDrop(x: nat, m: nat, t: nat)
    requires m > 0
    ensures Rem(x + Mul(m, t), m) == Rem(x, m)
  {
    DivSmall(x, m);
    assert x + m * t == m * (x / m + t) + x % m;
    RemainderIs(x + m * t, m, x / m + t, x % m);
  }

  lemma RemSmall(x: nat, m: nat)
    requires x < m
    ensures Rem(x, m) == x
  {
  }

  /** Taking the divisor away before the shift does not matter. */
  lemma UpMinus(u: nat, m: nat, k: nat)
    requires 0 < m <= u
    ensures Rem(Up(u, k), m) == Rem(Up(u - m, k), m)
  {
    UpAdd(u - m, m, k);
    UpIsMul(m, k);
    hide Up, Mul, Rem;
    RemDrop(Up(u - m, k), m, Pow2(k));
  }

  lemma UpIsMul(m: nat, k: nat)
    ensures Up(m, k) == Mul(m, Pow2(k))
  {
  }

  lemma RemSelf(m: nat, k: nat)
    requires m > 0
    ensures Rem(Up(m, k), m) == 0
  {
    UpMinus(m, m, k);
    UpZero(k);
  }

  lemma UpShift(u: nat, k: nat)
    ensures Up(2 * u, k) == Up(u, k + 1)
  {
    UpNext(u, 0);
    UpZero(u);
    hide Up;
    UpUp(u, 1, k);
    assert Up(u, 0 + 1) == 2 * u;
  }

  /** Shifting both sides shifts the remainder. */
  lemma RemUp(a: nat, b: nat, k: nat)
    requires b > 0
    ensures Up(b, k) > 0 && Rem(Up(a, k), Up(b, k)) == Up(Rem(a, b), k)
  {
    DivSmall(a, b);
    var p, q, r := Pow2(k), a / b, a % b;
    hide Pow2;
    assert a * p == (b * p) * q + r * p by { Spread(a, b, q, r, p); }
    Bits.MulMono(r + 1, b, p);
    assert b * p >= 1 by { Bits.MulMono(1, b, p); }
    RemainderIs(a * p, b * p, q, r * p);
  }

  lemma Spread(a: nat, b: nat, q: nat, r: nat, p: nat)
    requires a == b * q + r
    ensures a * p == (b * p) * q + r * p
  {
    assert (b * q + r) * p == b * q * p + r * p;
  }

  // ---------- the loops ----------

  /** One round: take the divisor away if it fits, then double. */
  lemma Round(mx: nat, my: nat, k: nat)
    requires my > 0 && k > 0 && mx < 2 * my
    ensures var i := if mx >= my then mx - my else mx; Rem(Up(mx, k), my) == Rem(Up(2 * i, k - 1), my) && 2 * i < 2 * my
  {
    hide Up, Rem;
    if mx >= my { UpMinus(mx, my, k); }
    UpShift(if mx >= my then mx - my else mx, k - 1);
  }

  lemma LastRound(mx: nat, my: nat)
    requires my > 0 && mx < 2 * my
    ensures Rem(Up(mx, 0), my) == if mx >= my then mx - my else mx
  {
    if mx >= my { UpMinus(mx, my, 0); }
    UpZero(mx);
    UpZero(if mx >= my then mx - my else 0);
    hide Up;
    RemSmall(if mx >= my then mx - my else mx, my);
  }

  /** The mantissa loop of long doubles: my is normalised, and doubling may wrap around. */
  method LongRemainder(mx0: U64, my: U64, ex: int, ey: int) returns (r: U64)
    requires HALF <= my && ex >= ey
    ensures r == Rem(Up(mx0, ex - ey), my)
  {
    hide Up, Rem;
    var mx: U64, e := mx0, ex;
    while e > ey
      invariant e >= ey && Rem(Up(mx, e - ey), my) == Rem(Up(mx0, ex - ey), my)
    {
      Round(mx, my, e - ey);
      var i := (mx - my) % WORD;
      if mx >= my {
        if i == 0 {
          RemSelf(my, e - ey);
          return 0;
        }
        mx := 2 * i % WORD;
      } else if 2 * mx % WORD < mx {
        UpMinus(2 * mx, my, e - ey - 1);
        mx := (2 * mx - my) % WORD;
      } else {
        mx := 2 * mx % WORD;
      }
      e := e - 1;
    }
    LastRound(mx, my);
    r := if mx >= my then mx - my else mx;
  }

  /** Bringing a remainder back to a full mantissa keeps its value. */
  method LongNormalise(mx0: U64, ex0: int) returns (mx: U64, ex: int)
    requires mx0 > 0
    ensures HALF <= mx && ex <= ex0 && mx == Up(mx0, ex0 - ex)
  {
    hide Up;
    mx, ex := mx0, ex0;
    UpZero(mx0);
    while mx < HALF
      invariant ex <= ex0 && mx == Up(mx0, ex0 - ex) && mx > 0
      decreases if mx < HALF then HALF - mx else 0
    {
      UpNext(mx0, ex0 - ex);
      mx := 2 * mx % WORD;
      ex := ex - 1;
    }
  }

  /** The loop of doubles: 53-bit mantissas leave room for doubling. */
  method ShortRemainder(mx0: U64, my: U64, ex: int, ey: int) returns (r: U64)
    requires BIT52 <= my < 2 * BIT52 && mx0 < 2 * BIT52 && ex >= ey
    ensures r == Rem(Up(mx0, ex - ey), my)
  {
    hide Up, Rem;
    var mx: U64, e := mx0, ex;
    while e > ey
      invariant e >= ey && mx < 2 * my && Rem(Up(mx, e - ey), my) == Rem(Up(mx0, ex - ey), my)
    {
      Round(mx, my, e - ey);
      var i := (mx - my) % WORD;
      if i < HALF {
        if i == 0 {
          RemSelf(my, e - ey);
          return 0;
        }
        mx := i;
      }
      mx := 2 * mx % WORD;
      e := e - 1;
    }
    LastRound(mx, my);
    var i := (mx - my) % WORD;
    r := if i < HALF then i else mx;
  }

  // ---------- doubles ----------

  function Exponent(x: U64): (e: nat)
    ensures e < 2048
  {
    x / BIT52 % 2048
  }

  function Fraction(x: U64): (m: nat)
    ensures m < BIT52
  {
    x % BIT52
  }

  function Sign(x: U64): nat { x / HALF }

  function Pack(sign: nat, e: nat, m: nat): (x: U64)
    requires sign <= 1 && e < 2048 && m < BIT52
    ensures Sign(x) == sign && Exponent(x) == e && Fraction(x) == m
  {
    sign * HALF + e * BIT52 + m
  }

  predicate IsNaN(x: U64) { Exponent(x) == 2047 && Fraction(x) != 0 }

  predicate IsZero(x: U64) { Exponent(x) == 0 && Fraction(x) == 0 }

  predicate IsFinite(x: U64) { Exponent(x) < 2047 }

  /** The absolute value of a finite double in units of 2^-1074. */
  function Units(x: U64): nat { if Exponent(x) == 0 then Fraction(x) else Up(BIT52 + Fraction(x), Exponent(x) - 1) }

  /** A normalised mantissa and its exponent. */
  ghost predicate Normalised(units: nat, m: U64, e: int) {
    BIT52 <= m < 2 * BIT52 && -64 <= e <= 2046 && Up(units, BIAS + 1) == Up(m, e + BIAS)
  }

  lemma UpInjective(u: nat, v: nat, k: nat)
    requires Up(u, k) == Up(v, k)
    ensures u == v
  {
    if u < v { UpLess(u, v, k); } else if v < u { UpLess(v, u, k); }
  }

  lemma UpLess(u: nat, v: nat, k: nat)
    requires u < v
    ensures Up(u, k) < Up(v, k)
  {
    UpMono(u + 1, v, k);
    UpAdd(u, 1, k);
    UpOne(k);
  }

  lemma BIT52Is()
    ensures Pow2(52) == BIT52 && Pow2(53) == 2 * BIT52 && Pow2(12) == 4096 && Pow2(11) == 2048
  {
    assert Pow2(5) == 32 && Pow2(6) == 64;
    Pow2Add(6, 5);
    Pow2Next(11);
    hide Pow2;
    Pow2Is32();
    Pow2Add(32, 12);
    Pow2Add(44, 8);
    Pow2Next(52);
    PowEight();
  }

  lemma PowEight()
    ensures Pow2(8) == 256
  {
  }

  /** The order of the bits without the sign is the order of the values. */
  lemma BitsOrder(x: U64, y: U64)
    requires IsFinite(x) && IsFinite(y) && x % HALF < y % HALF
    ensures Units(x) < Units(y)
  {
    hide Up, Exponent, Fraction;
    var e, f, m, n := Exponent(x), Exponent(y), Fraction(x), Fraction(y);
    PartsOf(x);
    PartsOf(y);
    if f > 0 {
      UpMono(BIT52, BIT52 + n, f - 1);
      if e == f {
        UpLess(BIT52 + m, BIT52 + n, e - 1);
      } else if e > 0 {
        UpLess(BIT52 + m, 2 * BIT52, e - 1);
        UpShift(BIT52, e - 1);
        UpGrows(BIT52, e, f - 1);
      } else {
        UpGrows(BIT52, 0, f - 1);
        UpZero(BIT52);
      }
    }
  }

  lemma {:induction false} UpGrows(u: nat, j: nat, k: nat)
    requires j <= k
    ensures Up(u, j) <= Up(u, k)
    decreases k
  {
    hide Up;
    if j < k {
      UpGrows(u, j, k - 1);
      UpNext(u, k - 1);
    }
  }

  /** A larger value has no smaller exponent. */
  lemma ExponentsOrder(u: nat, mx: U64, ex: int, v: nat, my: U64, ey: int)
    requires Normalised(u, mx, ex) && Normalised(v, my, ey) && u > v
    ensures ex >= ey
  {
    hide Up;
    UpLess(v, u, BIAS + 1);
    if ex < ey {
      UpLess(mx, 2 * BIT52, ex + BIAS);
      UpShift(BIT52, ex + BIAS);
      UpGrows(BIT52, ex + BIAS + 1, ey + BIAS);
      UpMono(BIT52, my, ey + BIAS);
    }
  }

  method Normalise(x: U64) returns (m: U64, e: int)
    requires IsFinite(x) && !IsZero(x)
    ensures Normalised(Units(x), m, e)
  {
    hide Up, Shl, Normalised;
    var ex := Exponent(x);
    if ex != 0 {
      NormalCase(x);
      return x % BIT52 + BIT52, ex;
    }
    var f := Fraction(x);
    SubnormalStart(x);
    e := 0;
    var i: U64 := Shl(x, 12);
    while i < HALF
      invariant e <= 0 && i == Up(f, 12 - e) && i > 0
      decreases if i < HALF then HALF - i else 0
    {
      UpNext(f, 12 - e);
      i := 2 * i % WORD;
      e := e - 1;
    }
    SubnormalEnd(x, e);
    m := Shl(x, 1 - e);
  }

  lemma NormalCase(x: U64)
    requires 1 <= Exponent(x) <= 2046
    ensures Normalised(Units(x), Fraction(x) + BIT52, Exponent(x))
  {
    hide Up;
    UpUp(BIT52 + Fraction(x), Exponent(x) - 1, BIAS + 1);
  }

  /** The shift by 12 drops sign and exponent of a subnormal number. */
  lemma SubnormalStart(x: U64)
    requires Exponent(x) == 0 && Fraction(x) > 0
    ensures Shl(x, 12) == Up(Fraction(x), 12) > 0
  {
    DropSign(x, 12);
    UpMono(1, Fraction(x), 12);
    UpOne(12);
  }

  lemma DropSign(x: U64, k: nat)
    requires Exponent(x) == 0 && 1 <= k && Up(Fraction(x), k) < WORD
    ensures Shl(x, k) == Up(Fraction(x), k)
  {
    hide Up, Pow2;
    var f, s := Fraction(x), Sign(x);
    assert x == s * HALF + f;
    UpAdd(s * HALF, f, k);
    UpUp(s * HALF, 1, k - 1);
    UpNext(s * HALF, 0);
    UpZero(s * HALF);
    UpIsTimes(s, k - 1, Up(f, k));
  }

  lemma UpIsTimes(s: nat, k: nat, f: nat)
    requires f < WORD
    ensures (Up(s * WORD, k) + f) % WORD == f
  {
    Regroup(s, Pow2(k));
    RemainderIs(Up(s * WORD, k) + f, WORD, Up(s, k), f);
  }

  lemma Regroup(s: nat, p: nat)
    ensures s * WORD * p == s * p * WORD
  {
  }

  lemma SubnormalEnd(x: U64, e: int)
    requires Exponent(x) == 0 && Fraction(x) > 0 && e <= 0 && HALF <= Up(Fraction(x), 12 - e) < WORD
    ensures Normalised(Units(x), Shl(x, 1 - e), e)
  {
    hide Up, Pow2;
    var f := Fraction(x);
    BIT52Is();
    UpUp(f, 1 - e, 11);
    UpIs11(Up(f, 1 - e));
    DropSign(x, 1 - e);
    if e < -64 {
      UpMono(1, f, 12 - e);
      UpOne(12 - e);
      Pow2Mono(64, 12 - e);
      Pow2Is64();
    }
    UpUp(f, 1 - e, e + BIAS);
  }

  lemma UpIs11(u: nat)
    ensures Up(u, 11) == u * 2048
  {
    BIT52Is();
  }

  /** Back to bits: the value is kept exactly. */
  method Denormalise(u: nat, m0: U64, e0: int, sign: nat) returns (r: U64)
    requires 0 < m0 < 2 * BIT52 && -64 <= e0 <= 2046 && Up(u, BIAS + 1) == Up(m0, e0 + BIAS) && sign <= 1
    ensures IsFinite(r) && Units(r) == u && Sign(r) == sign
  {
    hide Up;
    var m: U64, e := m0, e0;
    UpOne(0);
    while m < BIT52
      invariant m < 2 * BIT52 && e <= e0 && -BIAS < e && Up(u, BIAS + 1) == Up(m, e + BIAS)
      invariant m >= Up(1, e0 - e)
      decreases 2 * BIT52 - m
    {
      StepBound(e0 - e, m);
      UpShift(m, e + BIAS - 1);
      UpNext(1, e0 - e);
      m := 2 * m % WORD;
      e := e - 1;
    }
    if e > 0 {
      Packs(u, m, e);
      r := Pack(sign, e, m - BIT52);
    } else {
      Unpacks(u, m, e);
      r := Pack(sign, 0, High(m, 1 - e));
    }
  }

  lemma StepBound(k: nat, m: nat)
    requires Up(1, k) <= m < BIT52
    ensures k < 52 && m > 0
  {
    hide Up, Pow2;
    UpOne(k);
    BIT52Is();
    if k >= 52 { Pow2Mono(52, k); }
  }

  lemma Packs(u: nat, m: U64, e: int)
    requires e > 0 && Up(u, BIAS + 1) == Up(m, e + BIAS)
    ensures u == Up(m, e - 1)
  {
    hide Up;
    UpUp(m, e - 1, BIAS + 1);
    UpInjective(u, Up(m, e - 1), BIAS + 1);
  }

  lemma Unpacks(u: nat, m: U64, e: int)
    requires -BIAS < e <= 0 && Up(u, BIAS + 1) == Up(m, e + BIAS) && m < 2 * BIT52
    ensures High(m, 1 - e) == u < BIT52
  {
    hide Up, High;
    UpUp(u, 1 - e, e + BIAS);
    UpInjective(m, Up(u, 1 - e), e + BIAS);
    PartsAre(m, 1 - e, u, 0);
    UpGrows(u, 1, 1 - e);
    UpNext(u, 0);
    UpZero(u);
  }

  datatype Result = NaN | Double(bits: U64)

  /** The remainder has the sign of `x` and is exact. */
  method FMod(x: U64, y: U64) returns (r: Result)
    ensures r.NaN? <==> IsZero(y) || IsNaN(y) || !IsFinite(x)
    ensures r.Double? && IsFinite(y) ==> IsFinite(r.bits) && Units(y) > 0 && Units(r.bits) == Rem(Units(x), Units(y))
    ensures r.Double? && !IsFinite(y) ==> r.bits == x
    ensures r.Double? ==> Sign(r.bits) == Sign(x)
  {
    hide Up, Rem, Normalised;
    if y % HALF == 0 || IsNaN(y) || Exponent(x) == 2047 {
      return NaN;
    }
    assert IsZero(y) <==> y % HALF == 0;
    if x % HALF <= y % HALF {
      if x % HALF == y % HALF {
        SameUnits(x, y);
        return Double(Pack(Sign(x), 0, 0));
      }
      if IsFinite(y) {
        BitsOrder(x, y);
        RemSmall(Units(x), Units(y));
      }
      return Double(x);
    }
    assert IsFinite(y) by { FiniteBelow(x, y); }
    BitsOrder(y, x);
    assert !IsZero(x);
    UnitsPositive(y);
    var mx, ex := Normalise(x);
    var my, ey := Normalise(y);
    ExponentsOrder(Units(x), mx, ex, Units(y), my, ey);
    NormalisedIs(Units(x), mx, ex);
    NormalisedIs(Units(y), my, ey);
    var m := ShortRemainder(mx, my, ex, ey);
    RemainderUnits(Units(x), mx, ex, Units(y), my, ey);
    if m == 0 {
      UpZero(ey + BIAS);
      ZeroUnits(Rem(Units(x), Units(y)));
      return Double(Pack(Sign(x), 0, 0));
    }
    var bits := Denormalise(Rem(Units(x), Units(y)), m, ey, Sign(x));
    return Double(bits);
  }

  lemma NormalisedIs(u: nat, m: U64, e: int)
    requires Normalised(u, m, e)
    ensures BIT52 <= m < 2 * BIT52 && -64 <= e <= 2046
  {
  }

  lemma ZeroUnits(u: nat)
    requires Up(u, BIAS + 1) == 0
    ensures u == 0
  {
    hide Up;
    UpZero(BIAS + 1);
    UpInjective(u, 0, BIAS + 1);
  }

  lemma FiniteBelow(x: U64, y: U64)
    requires IsFinite(x) && y % HALF < x % HALF
    ensures IsFinite(y)
  {
    PartsOf(x);
    PartsOf(y);
    hide Exponent, Fraction;
  }

  lemma SameUnits(x: U64, y: U64)
    requires x % HALF == y % HALF != 0 && IsFinite(x)
    ensures Units(x) == Units(y) > 0 && Rem(Units(x), Units(y)) == 0
  {
    hide Up, Rem, Exponent, Fraction;
    SameParts(x, y);
    UnitsPositive(x);
    RemSelf(Units(x), 0);
    UpZero(Units(x));
  }

  /** The bits without the sign. */
  lemma PartsOf(x: U64)
    ensures x % HALF == Exponent(x) * BIT52 + Fraction(x)
  {
  }

  /** The classes by the bits without the sign, the exponent being all ones from 7FF0... up. */
  lemma BitsMean(x: U64)
    ensures var bits := x % 0x8000_0000_0000_0000;
      && (IsNaN(x) <==> bits > 0x7FF0_0000_0000_0000) && (IsFinite(x) <==> bits < 0x7FF0_0000_0000_0000)
      && (IsZero(x) <==> bits == 0) && (Sign(x) == 1 <==> x >= 0x8000_0000_0000_0000)
  {
    PartsOf(x);
    hide Exponent, Fraction;
  }

  /** From 0 on, each double is one unit in the last place above the one before. */
  lemma UnitsNext(x: U64)
    requires x < 0x7FEF_FFFF_FFFF_FFFF
    ensures var e := x / 0x10_0000_0000_0000;
      Units(0) == 0 && Units(x + 1) == Units(x) + Pow2(if e == 0 then 0 else e - 1)
  {
    hide Up, Pow2;
    var y: U64, e, m := x + 1, Exponent(x), Fraction(x);
    PartsOf(x);
    PartsOf(y);
    var k := if e == 0 then 0 else e - 1;
    UpOne(k);
    NextParts(x);
    UpAdd(BIT52 + m, 1, k);
    UpZero(BIT52 + m);
    UpZero(2 * BIT52);
    UpZero(1);
    if e > 0 { UpShift(BIT52, e - 1); }
    UpZero(BIT52);
  }

  lemma NextParts(x: U64)
    requires x < HALF - 1
    ensures Exponent(x) == x / BIT52
    ensures Fraction(x) < BIT52 - 1 ==> Exponent(x + 1) == Exponent(x) && Fraction(x + 1) == Fraction(x) + 1
    ensures Fraction(x) == BIT52 - 1 ==> Exponent(x + 1) == Exponent(x) + 1 && Fraction(x + 1) == 0
  {
  }

  lemma SameParts(x: U64, y: U64)
    requires x % HALF == y % HALF
    ensures Exponent(x) == Exponent(y) && Fraction(x) == Fraction(y)
  {
    PartsOf(x);
    PartsOf(y);
    hide Exponent, Fraction;
  }

  lemma UnitsPositive(x: U64)
    requires IsFinite(x) && x % HALF != 0
    ensures Units(x) > 0
  {
    hide Up;
    if Exponent(x) > 0 {
      UpMono(1, BIT52 + Fraction(x), Exponent(x) - 1);
      UpOne(Exponent(x) - 1);
    }
  }

  /** The remainder of the mantissas, moved to the smaller exponent, is the remainder of the values. */
  lemma RemainderUnits(u: nat, mx: U64, ex: int, v: nat, my: U64, ey: int)
    requires Normalised(u, mx, ex) && Normalised(v, my, ey) && ex >= ey && v > 0
    ensures Up(Rem(u, v), BIAS + 1) == Up(Rem(Up(mx, ex - ey), my), ey + BIAS)
  {
    hide Up, Rem;
    RemUp(u, v, BIAS + 1);
    UpUp(mx, ex - ey, ey + BIAS);
    RemUp(Up(mx, ex - ey), my, ey + BIAS);
  }
}