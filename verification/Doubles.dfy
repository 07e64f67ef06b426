/** The doubles, by their bits, are the numbers that the printer takes. */
module Doubles {
  import opened Bits
  import opened Fmod
  import F = FormatFloat

  /** `x` is the double `v` / 2^35 * 2^`e2`: both are counted in units of 2^-1137. */
  ghost predicate SameNumber(x: U64, v: nat, e2: int) { e2 >= -1102 && Up(Units(x), 63) == Up(v, e2 + 1102) }

  /** Every positive finite double has a significand and an exponent that the printer takes, and they are its value. */
  lemma EveryDouble(x: U64) returns (v: nat, e2: int)
    requires 0 < x < 0x7FF0_0000_0000_0000
    ensures F.Representable(v, e2, false) && SameNumber(x, v, e2)
  {
    BitsMean(x);
    if Exponent(x) > 0 {
      v, e2 := Up(BIT52 + Fraction(x), 11), Exponent(x) - 1051;
      NormalDouble(x);
    } else {
      var k := Highest(Fraction(x));
      var place: int := k;
      v, e2 := Up(Fraction(x), 63 - k), place - 1102;
      SubnormalDouble(x, k);
    }
  }

  lemma NormalDouble(x: U64)
    requires 1 <= Exponent(x) <= 2046
    ensures var v, e2 := Up(BIT52 + Fraction(x), 11), Exponent(x) - 1051;
      F.Representable(v, e2, false) && SameNumber(x, v, e2)
  {
    hide Up, Pow2, High, Low;
    var m, e := BIT52 + Fraction(x), Exponent(x);
    UpIs11(m);
    Pow2Next(0);
    BIT52Is();
    PartsAre(Up(m, 11), 11, m, 0);
    UpUp(m, e - 1, 63);
    UpUp(m, 11, e + 51);
  }

  lemma SubnormalDouble(x: U64, k: nat)
    requires Exponent(x) == 0 && Fraction(x) > 0 && k < 52 && Pow2(k) <= Fraction(x) < Pow2(k + 1)
    ensures var v, e2 := Up(Fraction(x), 63 - k), k - 1102;
      F.Representable(v, e2, false) && SameNumber(x, v, e2)
  {
    hide Up, Pow2, High, Low;
    var f := Fraction(x);
    Pow2Is64();
    UpAtLeast(f, k, 63 - k);
    UpBelow(f, k + 1, 63 - k);
    PartsAre(Up(f, 63 - k), 63 - k, f, 0);
    UpUp(f, 63 - k, k);
  }

  /** The place of the highest bit of a fraction. */
  lemma Highest(f: nat) returns (k: nat)
    requires 0 < f < BIT52
    ensures k < 52 && Pow2(k) <= f < Pow2(k + 1)
  {
    k := 0;
    Pow2Next(0);
    while f >= Pow2(k + 1)
      invariant Pow2(k) <= f && k < 52
      decreases 52 - k
    {
      BIT52Is();
      k := k + 1;
    }
  }

  /** And every significand and exponent that it takes are a positive finite double. */
  lemma OnlyDoubles(v: nat, e2: int) returns (x: U64)
    requires F.Representable(v, e2, false)
    ensures 0 < x < 0x7FF0_0000_0000_0000 && SameNumber(x, v, e2)
  {
    hide Up, Pow2, High, Low;
    var s := F.Spare(e2, false);
    var h := High(v, s);
    Parts(v, s);
    UpZero(h);
    Pow2Is64();
    BIT52Is();
    if e2 >= -1050 {
      HighRange(v, h, 11);
      x := Pack(0, e2 + 1051, h - BIT52);
      UpUp(h, e2 + 1050, 63);
      UpUp(h, 11, e2 + 1102);
    } else {
      HighRange(v, h, s);
      Pow2Mono(64 - s, 52);
      x := Pack(0, 0, h);
      UpUp(h, s, 63 - s);
    }
    BitsMean(x);
  }

  lemma HighRange(v: nat, h: nat, s: nat)
    requires HALF <= v < WORD && v == Up(h, s) && s <= 63
    ensures Pow2(63 - s) <= h < Pow2(64 - s)
  {
    hide Up, Pow2;
    Pow2Is64();
    if h < Pow2(63 - s) { UpBelow(h, 63 - s, s); }
    if h >= Pow2(64 - s) { UpAtLeast(h, 64 - s, s); }
  }
}
