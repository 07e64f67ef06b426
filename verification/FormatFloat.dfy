/**
 Printing a binary number in decimal: the number is spread over base-10^9 limbs in a buffer,
 shifted by powers of two until no binary exponent is left, and rounded half to even at the
 requested decimal place.
 */
module FormatFloat {
  import opened Limbs
  import opened Rounding
  import opened Bits

  // the significand arrives with 28 bits before the point and 35 behind it
  const FRACTION := 0x8_0000_0000

  lemma {:induction false} Pow2Is(n: nat)
    ensures Pow2(n) as real == Pow(2.0, n)
  {
    hide Pow, Times;
    if n == 0 {
      PowZero(2.0);
    } else {
      Pow2Is(n - 1);
      PowNext(2.0, n - 1);
      TimesIs(2.0, Pow(2.0, n - 1));
    }
  }

  lemma Pow2Small(n: nat)
    ensures n <= 9 ==> BASE % Pow2(n) == 0
    ensures n <= 29 ==> Pow2(n) <= 0x2000_0000
    ensures n >= 1 ==> Pow2(n) >= 2
  {
    if n <= 9 { Pow2Divides(n); }
    Pow2At29();
    hide Pow2;
    if n >= 1 { Pow2Mono(1, n); }
    if n <= 29 { Pow2Mono(n, 29); }
  }

  lemma Pow2At29()
    ensures Pow2(29) == 0x2000_0000 && Pow2(1) == 2
  {
    assert Pow2(5) == 32;
    assert Pow2(10) == 1024;
    assert Pow2(15) == 0x8000;
    assert Pow2(20) == 0x10_0000;
    assert Pow2(25) == 0x200_0000;
  }

  lemma Pow2Divides(n: nat)
    requires n <= 9
    ensures BASE % Pow2(n) == 0
  {
    assert Pow2(1) == 2 && Pow2(2) == 4 && Pow2(3) == 8 && Pow2(4) == 16;
    assert Pow2(5) == 32 && Pow2(6) == 64 && Pow2(7) == 128 && Pow2(8) == 256 && Pow2(9) == 512;
  }

  // ---------- multiplying all limbs ----------

  function Digit(x: nat, p: nat, carry: nat): nat { x * p + carry }

  /** Limbs times `p`, least significant first, and the carry out of the top. */
  function ScaleUp(l: seq<nat>, p: nat): (r: (seq<nat>, nat))
    ensures |r.0| == |l|
  {
    if l == [] then ([], 0)
    else
      var (t, c) := ScaleUp(l[1..], p);
      var x := Digit(l[0], p, c);
      ([x % BASE] + t, x / BASE)
  }

  lemma {:induction false} UpFracExact(l: seq<nat>, p: nat)
    ensures var (t, c) := ScaleUp(l, p); c as real + Frac(t) == Times(p as real, Frac(l)) && Normal(t)
    decreases |l|
  {
    hide Times;
    if l == [] {
      TimesZero(p as real);
    } else {
      var (t, c) := ScaleUp(l[1..], p);
      UpFracExact(l[1..], p);
      var x := l[0] * p + c;
      assert x == x / BASE * BASE + x % BASE;
      assert l == [l[0]] + l[1..];
      UpStepExact(l[0], p, c, t, l[1..]);
    }
  }

  lemma TimesZero(a: real)
    ensures Times(a, 0.0) == 0.0
  {
  }

  lemma UpStepExact(h: nat, p: nat, c: nat, t: seq<nat>, rest: seq<nat>)
    requires c as real + Frac(t) == Times(p as real, Frac(rest))
    ensures var x := h * p + c;
      (x / BASE) as real + Frac([x % BASE] + t) == Times(p as real, Frac([h] + rest))
  {
    hide Frac, Times;
    var x := h * p + c;
    FracCons(x % BASE, t);
    FracCons(h, rest);
    ProductReal(h, p);
    TimesSwap(p as real, h as real + Frac(rest));
    TimesAdd(h as real, Frac(rest), p as real);
    TimesSwap(Frac(rest), p as real);
    TimesOver(p as real, h as real + Frac(rest));
    Split(x);
  }

  lemma Split(x: nat)
    ensures (x / BASE) as real + (x % BASE) as real / RBASE == x as real / RBASE
  {
    assert x == x / BASE * BASE + x % BASE;
  }

  lemma TimesOver(p: real, a: real)
    ensures Times(p, a / RBASE) == Times(p, a) / RBASE
  {
  }

  lemma {:induction false} UpCarry(l: seq<nat>, p: nat)
    requires Normal(l) && 0 < p <= 0x2000_0000
    ensures ScaleUp(l, p).1 < p
    decreases |l|
  {
    if l != [] {
      UpCarry(l[1..], p);
      var c := ScaleUp(l[1..], p).1;
      assert l[0] * p + c <= (BASE - 1) * p + p - 1 by { MulLe(l[0], BASE - 1, p); }
      assert (BASE - 1) * p + p - 1 == BASE * p - 1;
    }
  }

  lemma MulLe(a: nat, b: nat, p: nat)
    requires a <= b
    ensures a * p <= b * p
  {
    assert b * p == a * p + (b - a) * p;
    assert (b - a) * p >= 0;
  }

  lemma UpUnfold(l: seq<nat>, i: nat, p: nat)
    requires i < |l|
    ensures var (t, c) := ScaleUp(l[i + 1..], p); var x := Digit(l[i], p, c);
      ScaleUp(l[i..], p) == ([x % BASE] + t, x / BASE)
  {
    assert l[i..][0] == l[i] && l[i..][1..] == l[i + 1..];
  }

  // ---------- spreading the significand ----------

  lemma FractionIs()
    ensures FRACTION == Pow2(35) && Pow2(9) == 512
  {
    assert Pow2(3) == 8 && Pow2(9) == 512;
    hide Pow2;
    Pow2Is32();
    Pow2Add(32, 3);
  }

  /** Each limb taken off clears nine more low bits. */
  lemma NextBits(w: nat, k: nat, rest: nat) returns (w': nat)
    requires k <= 35 && rest == Up(w, k)
    ensures BASE * (rest % FRACTION) == Up(w', k + 9)
  {
    hide Pow2, Up, Low, High;
    FractionIs();
    var h, l := High(w, 35 - k), Low(w, 35 - k);
    Parts(w, 35 - k);
    UpAdd(Up(h, 35 - k), l, k);
    UpUp(h, 35 - k, k);
    UpBelow(l, 35 - k, k);
    PartsAre(rest, 35, h, Up(l, k));
    assert rest % FRACTION == Up(l, k) by { LowIs(rest, 35); }
    w' := 1953125 * l;
    UpUp(w', 9, k);
    UpIs512(w');
    UpTimes(BASE, l, k);
    assert BASE * l == 512 * w';
  }

  lemma LowIs(x: nat, k: nat)
    ensures Low(x, k) == x % Pow2(k)
  {
  }

  lemma UpIs512(w: nat)
    ensures Up(w, 9) == 512 * w
  {
    FractionIs();
  }

  lemma UpTimes(c: nat, w: nat, k: nat)
    ensures Up(c * w, k) == c * Up(w, k)
  {
    TimesAssocNat(c, w, Pow2(k));
  }

  lemma TimesAssocNat(a: nat, b: nat, c: nat)
    ensures a * b * c == a * (b * c)
  {
  }

  lemma LastBits(w: nat, k: nat, rest: nat)
    requires k >= 35 && rest == Up(w, k)
    ensures rest % FRACTION == 0
  {
    hide Pow2, Up, Low, High;
    FractionIs();
    UpUp(w, k - 35, 35);
    UpZero(0);
    PartsAre(rest, 35, Up(w, k - 35), 0);
    LowIs(rest, 35);
  }

  /** The significand is the limbs so far plus what is left, in the next limb's place. */
  ghost predicate SpreadTo(v: nat, s: seq<nat>, rest: nat) {
    v as real / 34359738368.0 / RBASE == Frac(s) + Times(rest as real / 34359738368.0, Pow(RBASE, -|s| - 1))
  }

  lemma SpreadStart(v: nat)
    ensures SpreadTo(v, [], v)
  {
    hide Times, Pow;
    PowNext(RBASE, -1);
    PowZero(RBASE);
    TimesIs(RBASE, Pow(RBASE, -1));
    PowInverse(v as real / 34359738368.0);
  }

  lemma PowInverse(x: real)
    ensures Times(x, Pow(RBASE, -1)) == x / RBASE
  {
    assert Pow(RBASE, -1) == 1.0 / RBASE;
  }

  lemma SpreadNext(v: nat, s: seq<nat>, rest: nat)
    requires SpreadTo(v, s, rest)
    ensures SpreadTo(v, s + [rest / FRACTION], BASE * (rest % FRACTION))
  {
    hide Times, Pow, Frac;
    var q, m := rest / FRACTION, rest % FRACTION;
    var w, w' := Pow(RBASE, -|s| - 1), Pow(RBASE, -|s| - 2);
    var mr := m as real / 34359738368.0;
    FracAppend(s, q);
    PowNext(RBASE, -|s| - 2);
    var before, after := rest as real / 34359738368.0, (BASE * m) as real / 34359738368.0;
    assert before == q as real + mr;
    TimesAdd(q as real, mr, w);
    assert Times(before, w) == Times(q as real, w) + Times(mr, w);
    TimesMove(RBASE, mr, w');
    TimesIs(RBASE, mr);
    assert after == Times(RBASE, mr);
    assert Times(after, w') == Times(mr, w);
    assert -|s + [q]| - 1 == -|s| - 2;
  }

  lemma SpreadEnd(v: nat, s: seq<nat>, e2: int)
    requires SpreadTo(v, s, 0)
    ensures ValueOf(s, 9, e2) == Times(v as real / 34359738368.0, Pow(2.0, e2))
  {
    hide Frac, Pow, Times;
    TimesZero(Pow(RBASE, -|s| - 1));
    TimesSwap(0.0, Pow(RBASE, -|s| - 1));
    assert Frac(s) == v as real / 34359738368.0 / RBASE;
    PowTenIs();
    TimesSwap(Frac(s), RBASE);
    TimesIs(RBASE, Frac(s));
  }

  lemma NormalAppend(s: seq<nat>, q: nat)
    requires Normal(s) && q < BASE
    ensures Normal(s + [q])
  {
  }

  ghost predicate Trimmed(s: seq<nat>) { s != [] && s[0] != 0 && s[|s| - 1] != 0 }

  /** The limbs after a division by `p`, without a 0 at the end, and whether a leading 0 was dropped. */
  function Halved(l: seq<nat>, p: nat): (seq<nat>, bool)
    requires p > 0 && BASE % p == 0
  {
    var m := Down(l, 0, p);
    var out := if m[|m| - 1] != 0 then m else m[..|m| - 1];
    if m[0] == 0 && out != [] then (out[1..], true) else (out, false)
  }

  // ---------- the number types printed ----------

  /** Limbs for a long double or a double. */
  function SizeFor(long: bool): (n: nat)
    ensures n > 65
  {
    if long then 1835 else 126
  }

  function MantissaBits(long: bool): nat { if long then LDBL_MANT_DIG else 53 }

  function MaxExponent(long: bool): nat { if long then 16384 else 1024 }

  /** The binary exponent of the smallest subnormal number. */
  function LowestBit(long: bool): int { if long then -16445 else -1074 }

  /** How many bits of 0 end the 64-bit significand, at least. */
  function Spare(e2: int, long: bool): nat {
    var subnormal := LowestBit(long) + 35 - e2;
    if subnormal > 64 - MantissaBits(long) then subnormal else 64 - MantissaBits(long)
  }

  /** A positive number `v` / 2^35 * 2^`e2` of the type, with the highest bit of `v` set. */
  predicate Representable(v: nat, e2: int, long: bool) {
    0x8000_0000_0000_0000 <= v < 0x1_0000_0000_0000_0000 && e2 + 29 <= MaxExponent(long)
    && Spare(e2, long) <= 63 && Low(v, Spare(e2, long)) == 0
  }

  datatype Notation = Fixed | Exponent | General

  function PrecisionOf(precision: int): nat { if precision < 0 then 6 else precision }

  /** Limbs kept behind the radix point or the first digit. */
  function Needed(p: nat): nat { 1 + (p + LDBL_MANT_DIG / 3 + 8) / 9 }

  /** The place to round at: `p` digits after the point, or after the first digit. */
  function Place(p: nat, e: int, notation: Notation): int {
    p - (if notation == Fixed then 0 else e) - (if notation == General && p > 0 then 1 else 0)
  }

  /** The number `v` / 2^35 * 2^`e2`. */
  ghost function Number(v: nat, e2: int): real { Times(v as real / 34359738368.0, Pow(2.0, e2)) }

  /** The most that limbs cut off can be worth. */
  ghost function MostLost(number: real, e2: int, p: nat, notation: Notation): real {
    if notation == Fixed then Times(2.0, Pow(10.0, 0 - p - 21))
    else Times(if e2 <= 0 then ((8 - e2) / 9) as real else 0.0, Times(Pow(10.0, 0 - p - 21), number))
  }

  /** The same bounds, with the number of digits in place of the number of limbs. */
  lemma LostBound(number: real, e2: int, p: nat, notation: Notation, lost: real)
    requires number >= 0.0
    requires notation == Fixed ==> lost <= Times(2.0, Pow(10.0, 9 * (1 - Needed(p))))
    requires notation != Fixed ==>
      lost <= Times(if e2 <= 0 then ((8 - e2) / 9) as real else 0.0, Times(Pow(10.0, 9 * (1 - Needed(p))), number))
    ensures lost <= MostLost(number, e2, p, notation)
  {
    hide Times, Pow;
    var u, w := Pow(10.0, 9 * (1 - Needed(p))), Pow(10.0, 0 - p - 21);
    var k := if e2 <= 0 then ((8 - e2) / 9) as real else 0.0;
    PowMono(9 * (1 - Needed(p)), 0 - p - 21);
    TimesMono(u, w, 2.0);
    TimesMono(u, w, number);
    TimesMono(Times(u, number), Times(w, number), k);
  }

  /** What limbs cut off in some rounds of shifting down can be worth. */
  ghost predicate Within(fixed: bool, need: nat, e2: int, rounds: nat, number: real, lost: real) {
    if fixed then lost <= Times(2.0, Unit(1 - need, e2))
    else lost <= Times(rounds as real, Times(Pow(10.0, 9 * (1 - need)), number))
  }

  lemma WithinStart(fixed: bool, need: nat, e2: int, number: real)
    ensures Within(fixed, need, e2, 0, number, 0.0)
  {
    hide Pow, Times, Unit;
    NonNeg(2.0, Unit(1 - need, e2));
    NothingLeft(Times(Pow(10.0, 9 * (1 - need)), number), 0, 0);
  }

  lemma WithinNext(fixed: bool, need: nat, e: int, e2: int, rounds: nat, number: real, lost: real, d: real, left: real)
    requires Within(fixed, need, e, rounds, number, lost) && e < e2 && left <= number
    requires d <= if fixed then Unit(1 - need, e2) else Times(Pow(10.0, 9 * (1 - need)), left)
    ensures Within(fixed, need, e2, rounds + 1, number, lost + d)
  {
    hide Pow, Times, Unit;
    if fixed {
      UnitsAddUp(1 - need, e, e2 - e, lost, d);
    } else {
      TimesMono(left, number, Pow(10.0, 9 * (1 - need)));
      SharesAddUp(rounds, Times(Pow(10.0, 9 * (1 - need)), number), lost, d);
    }
  }

  lemma WithinEnd(fixed: bool, need: nat, rounds: nat, number: real, lost: real, most: nat)
    requires Within(fixed, need, 0, rounds, number, lost) && rounds <= most && number >= 0.0
    ensures if fixed then lost <= Times(2.0, Pow(10.0, 9 * (1 - need)))
            else lost <= Times(most as real, Times(Pow(10.0, 9 * (1 - need)), number))
  {
    hide Pow, Times, Unit;
    UnitAtZero(1 - need);
    NonNeg(Pow(10.0, 9 * (1 - need)), number);
    TimesMono(rounds as real, most as real, Times(Pow(10.0, 9 * (1 - need)), number));
  }

  /** A first limb `v`, `places` limbs above the one before the point, has its first digit at place `e`. */
  ghost predicate LeadsAt(v: nat, places: int, e: int) {
    0 <= e - 9 * places <= 8 && TenPow(e - 9 * places) <= v < TenPow(e - 9 * places + 1)
  }

  class Decimal {
    const big: array<nat>
    const r: nat  // the limb before the radix point
    var a: nat
    var z: nat
    var e2: int
    ghost var cut: bool  // limbs other than 0 have been cut off

    /** An empty buffer; numbers below 1 grow towards its end and others towards its start. */
    constructor (e2: int, long: bool)
      ensures fresh(big) && big.Length == SizeFor(long) && a == z == r && !cut && this.e2 == e2
      ensures r == if e2 < 0 then 0 else big.Length - 65
    {
      big := new nat[SizeFor(long)];
      r := if e2 < 0 then 0 else SizeFor(long) - 65;
      a := if e2 < 0 then 0 else SizeFor(long) - 65;
      z := if e2 < 0 then 0 else SizeFor(long) - 65;
      this.e2 := e2;
      cut := false;
    }

    ghost predicate Shape()
      reads this, big
    {
      && a <= z <= big.Length && r < big.Length && Normal(big[a..z])
      && forall k | r <= k < a :: big[k] == 0
    }

    /** A nonzero number without zeros at either end. */
    ghost predicate Good()
      reads this, big
    {
      Shape() && Trimmed(big[a..z])
    }

    /** What shifting down leaves: a number that may have lost limbs at its end, or all of them. */
    ghost predicate Left()
      reads this, big
    {
      && a < big.Length && z <= big.Length && r < big.Length && big[a] != 0
      && (a < z ==> Normal(big[a..z])) && forall k | r <= k < a :: big[k] == 0
    }

    /** The limbs before the point that lie behind the last one are 0. */
    ghost predicate Whole()
      reads this, big
    {
      z <= big.Length && r < big.Length && forall k | z <= k <= r :: big[k] == 0
    }

    /** What is left once the digits are all limbs; before the first limb and behind the point are zeros. */
    ghost predicate Printable()
      reads this, big
    {
      && r < big.Length && a < big.Length && z <= big.Length && (a < z ==> Good())
      && forall k | r <= k < a :: big[k] == 0
    }

    ghost function Value(): real
      reads this, big
      requires a <= z <= big.Length
    {
      ValueOf(big[a..z], 9 * (r - a + 1), e2)
    }

    /** Stores one limb, between the limbs from `lo` and those up to `hi`. */
    method PutLimb(d: nat, v: nat, ghost lo: nat, ghost hi: nat)
      requires lo <= d < hi <= big.Length
      modifies big
      ensures big[lo..d] == old(big[lo..d]) && big[lo..d + 1] == old(big[lo..d]) + [v]
      ensures big[d + 1..hi] == old(big[d + 1..hi]) && big[d..hi] == [v] + old(big[d + 1..hi])
      ensures forall k | 0 <= k < big.Length && k != d :: big[k] == old(big[k])
    {
      ghost var head, tail := big[lo..d], big[d + 1..hi];
      big[d] := v;
      assert big[lo..d] == head;
      assert big[lo..d + 1] == head + [v];
      assert big[d..hi] == [v] + tail;
    }

    /** The limb loop of one shift up. */
    method UpPass(p: nat) returns (carry: nat)
      requires Shape() && 0 < p <= 0x2000_0000
      modifies big
      ensures Shape() && (big[a..z], carry) == ScaleUp(old(big[a..z]), p) && carry < p
      ensures forall k | 0 <= k < a || z <= k < big.Length :: big[k] == old(big[k])
    {
      hide ScaleUp, Normal, Digit;
      ghost var l := big[a..z];
      UpCarry(l, p);
      UpNil(l, p);
      UpNormal(l, p);
      carry := 0;
      var d := z;
      ghost var i := |l|;
      while d > a
        invariant d == a + i && 0 <= i <= |l| && ScaleUp(l[i..], p) == (big[d..z], carry)
        invariant big[a..d] == l[..i]
        invariant forall k | 0 <= k < a || z <= k < big.Length :: big[k] == old(big[k])
      {
        d := d - 1;
        i := i - 1;
        UpUnfold(l, i, p);
        PrefixStep(big, a, d, l, i);
        var x := Digit(big[d], p, carry);
        PutLimb(d, x % BASE, a, z);
        carry := x / BASE;
      }
      assert l[0..] == l && big[d..z] == big[a..z];
    }

    /** Spreads a significand of 2^-35ths over limbs; the first is its integer part. Bits of 0 at
        its end, `t` of them, save limbs. */
    method Spread(v: nat, ghost t: nat)
      requires a == z == r && r + 5 <= big.Length && v < 0x1_0000_0000_0000_0000 && t <= 63 && Low(v, t) == 0
      modifies this`z, big
      ensures Shape() && a < z <= a + 5 && big[a..z][0] == v / FRACTION
      ensures z <= a + 1 + if t < 35 then (43 - t) / 9 else 0
      ensures z == a + 1 || big[a..z][z - a - 1] != 0
      ensures Value() == Times(v as real / 34359738368.0, Pow(2.0, e2))
    {
      hide Pow, Frac, Times, Normal, ValueOf, Pow2, Up, Low, High;
      var rest: nat := v;
      ghost var w := High(v, t);
      Parts(v, t);
      NormalNil(big[a..z]);
      SpreadStart(v);
      while true
        invariant a <= z < a + 5 && rest == Up(w, t + 9 * (z - a)) && rest < FRACTION * BASE
        invariant z > a ==> t + 9 * (z - a) < 44
        invariant Normal(big[a..z]) && (z > a ==> big[a] == v / FRACTION && rest > 0)
        invariant SpreadTo(v, big[a..z], rest) && (z == a ==> rest == v)
        decreases 64 - t - 9 * (z - a)
      {
        ghost var s, q, k := big[a..z], rest / FRACTION, t + 9 * (z - a);
        SpreadNext(v, s, rest);
        NormalAppend(s, q);
        if k < 35 { w := NextBits(w, k, rest); } else { LastBits(w, k, rest); }
        big[z] := rest / FRACTION;
        rest := BASE * (rest % FRACTION);
        z := z + 1;
        assert big[a..z] == s + [q];
        if rest == 0 {
          break;
        }
      }
      SpreadEnd(v, big[a..z], e2);
    }

    /** Multiplies by 2^29 at a time until no positive binary exponent is left. */
    method ShiftUp()
      requires Good() && Whole() && 29 * a >= e2
      modifies this`a, this`z, this`e2, big
      ensures Good() && Whole() && z <= old(z) &&
        (if old(e2) <= 0 then e2 == old(e2) && a == old(a) && unchanged(big) else e2 == 0)
      ensures 29 * a + 28 >= 29 * old(a) - if old(e2) > 0 then old(e2) else 0
      ensures Value() == old(Value())
    {
      hide ScaleUp, Pow2, ValueOf;
      while e2 > 0
        invariant Good() && Whole() && 29 * a >= e2 && z <= old(z)
        invariant if old(e2) <= 0 then e2 == old(e2) && a == old(a) && unchanged(big) else e2 >= 0
        invariant if e2 > 0 then 29 * a - e2 >= 29 * old(a) - old(e2)
                  else 29 * a + 28 >= 29 * old(a) - if old(e2) > 0 then old(e2) else 0
        invariant Value() == old(Value())
      {
        UpRound(if e2 < 29 then e2 else 29);
      }
    }

    /** One shift up by `sh` binary places. */
    method UpRound(sh: nat)
      requires Good() && Whole() && sh <= 29 && a > 0
      modifies this`a, this`z, this`e2, big
      ensures Good() && Whole() && old(a) - 1 <= a && e2 == old(e2) - sh && z <= old(z)
      ensures Value() == old(Value())
    {
      hide ScaleUp, Pow2, ValueOf, Normal, Trimmed;
      Pow2Small(sh);
      ghost var l, rp := big[a..z], 9 * (r - a + 1);
      TrimmedNonempty(l);
      var carry := UpPass(Pow2(sh));
      ghost var t := big[a..z];
      if carry != 0 {
        a := a - 1;
        big[a] := carry;
        assert big[a..z] == [carry] + t;
      }
      e2 := e2 - sh;
      UpDone(l, t, carry, sh, rp, e2);
      assert big[a..z][0] == big[a];
      Trim();
    }

    /** Drops trailing limbs that are 0. */
    method Trim()
      requires Shape() && Whole() && a < z && big[a] != 0
      modifies this`z
      ensures Good() && Whole() && z <= old(z) && Value() == old(Value())
    {
      hide ValueOf;
      while z > a && big[z - 1] == 0
        invariant a < z <= old(z) && Shape() && Whole() && Value() == old(Value())
      {
        assert big[a..z] == big[a..z - 1] + [0];
        NormalPart(big[a..z], big[a..z - 1], 0);
        ValueZeros(big[a..z - 1], 9 * (r - a + 1), e2);
        z := z - 1;
      }
    }

    /** One limb of a shift down. */
    method DivideLimb(d: nat, carry: nat, p: nat, ghost n: nat, ghost l: seq<nat>, ghost i: nat) returns (c: nat)
      requires d == a + i < n <= big.Length && i < |l| && p > 0 && BASE % p == 0
      requires var m := Down(l, 0, p); Down(l[i..], carry, p) == m[i..] && big[a..d] == m[..i] && big[d..n] == l[i..]
      modifies big
      ensures var m := Down(l, 0, p);
        Down(l[i + 1..], c, p) == m[i + 1..] && big[a..d + 1] == m[..i + 1] && big[d + 1..n] == l[i + 1..]
      ensures forall k | 0 <= k < big.Length && k != d :: big[k] == old(big[k])
    {
      hide Down, DownLimb;
      DownStep(l, i, carry, p);
      SliceCons(big, d, n);
      SuffixCons(l, i);
      var (y, c') := DownLimb(big[d], carry, p);
      HeadTail(Down(l, 0, p), i, y, Down(l[i + 1..], c', p));
      PutLimb(d, y, a, n);
      c := c';
    }

    /** The limb loop of one shift down. */
    method DownPass(p: nat) returns (carry: nat)
      requires a < big.Length && z <= big.Length && p > 0 && BASE % p == 0
      modifies big
      ensures a <= z ==> Down(old(big[a..z]), 0, p) == big[a..z] + [carry]
      ensures a > z ==> carry == 0
      ensures forall k | 0 <= k < big.Length && !(a <= k < z) :: big[k] == old(big[k])
    {
      hide Down, DownLimb;
      carry := 0;
      var d := a;
      ghost var n := if a <= z then z else a;
      ghost var l, i := big[a..n], 0;
      ghost var m := Down(l, 0, p);
      assert l[0..] == l && m[0..] == m && big[a..d] == [];
      while d < z
        invariant d == a + i && d <= n && Down(l[i..], carry, p) == m[i..]
        invariant big[a..d] == m[..i] && big[d..n] == l[i..]
        invariant forall k | 0 <= k < big.Length && !(a <= k < z) :: big[k] == old(big[k])
      {
        carry := DivideLimb(d, carry, p, n, l, i);
        d := d + 1;
        i := i + 1;
      }
      assert l[i..] == [];
      DownUnfold(l[i..], carry, p);
      assert m == m[..i] + m[i..];
      if a > z { DownUnfold(l, 0, p); }
    }

    /** One shift down by `sh` binary places. */
    method HalveRound(sh: nat)
      requires Left() && 1 <= sh <= 9 && z < big.Length
      modifies this`a, this`z, this`e2, big
      ensures Left() && old(z) <= z <= old(z) + 1 && e2 == old(e2) + sh && Printed() == old(Printed()) &&
        (old(Good()) ==> Good())
      ensures a >= old(a) && (a == old(a) ==> big[a] <= old(big[a]))
      ensures if old(a < z) then a < z else a == old(a) && z == old(z)
    {
      hide Halved, Pow2, ValueOf, Normal, Trimmed;
      Pow2Small(sh);
      ghost var l, e, rp := if a <= z then big[a..z] else [], e2, 9 * (r - a + 1);
      if a >= z { PrintsNothing(); }
      if Good() { TrimmedNonempty(l); }
      MoveDown(Pow2(sh));
      e2 := e2 + sh;
      if l != [] {
        RoundDone(l, big[a..z], sh, rp, e);
      } else {
        PrintsNothing();
      }
    }

    /** The limb loop, then the new ends of the number. */
    method MoveDown(p: nat)
      requires a < big.Length && z < big.Length && big[a] != 0 && p >= 2 && BASE % p == 0
      modifies this`a, this`z, big
      ensures a < big.Length && big[a] != 0 && z <= big.Length && old(z) <= z <= old(z) + 1
      ensures var l := if old(a) <= old(z) then old(big[a..z]) else [];
        && (l == [] ==> a == old(a) && z == old(z))
        && (l != [] ==> a < z && (big[a..z], a != old(a)) == Halved(l, p) && (a == old(a) || a == old(a) + 1))
      ensures (forall k | 0 <= k < old(a) :: big[k] == old(big[k])) && (a != old(a) ==> big[old(a)] == 0)
      ensures old(a) == a ==> big[a] <= old(big[a])
    {
      hide Down, DownLimb;
      ghost var l := if a <= z then big[a..z] else [];
      ghost var m := Down(l, 0, p);
      DownUnfold(l, 0, p);
      if l != [] {
        assert l[0] == big[a];
        LeadOf(l, p);
      }
      var carry := DownPass(p);
      if a <= z { SplitCarry(m, big[a..z], carry); }
      ghost var dropped := big[a] == 0;
      if l != [] { DropHead(big, a, z); }
      PutEnds(carry, dropped, if l != [] then m else [0]);
    }

    /** Moves past a leading 0 and puts the carry behind the limbs. */
    method PutEnds(carry: nat, ghost dropped: bool, ghost m: seq<nat>)
      requires a < big.Length && z < big.Length && dropped == (big[a] == 0)
      requires a < z ==> m == big[a..z] + [carry] && (big[a] == 0 ==> m[1] >= 1)
      requires a >= z ==> carry == 0 && !dropped && m == [0]
      modifies this`a, this`z, big
      ensures a == (if dropped then old(a) + 1 else old(a)) && a < big.Length && big[a] != 0
      ensures z == (if carry != 0 then old(z) + 1 else old(z)) <= big.Length
      ensures var out := if carry != 0 then m else m[..|m| - 1];
        old(a) < old(z) ==> a < z && big[a..z] == if dropped then out[1..] else out
      ensures forall k | 0 <= k < big.Length && (carry == 0 || k < old(z)) :: big[k] == old(big[k])
    {
      ghost var a0, s := a, big[a..if a < z then z else a];
      if big[a] == 0 {
        a := a + 1;
      }
      if carry != 0 {
        big[z] := carry;
        z := z + 1;
        assert big[a0..z] == s + [carry];
      }
      if a0 < z {
        DropHead(big, a0, z);
      }
    }

    /** Divides by 2^9 at a time until no negative binary exponent is left, keeping at most
        `need` limbs from `r` (fixed notation) or from the first digit.  `lost` is the worth of
        the limbs cut off. */
    method ShiftDown(fixed: bool, need: nat) returns (ghost lost: real)
      requires Good() && Whole() && (e2 < 0 ==> r == 0 < z) && need >= 1 && 9 * z - e2 + 8 <= 9 * big.Length && !cut
      modifies this`a, this`z, this`e2, this`cut, big
      ensures Left() && Whole() && (if old(e2) <= 0 then e2 == 0 else e2 == old(e2)) && (old(e2) >= 0 ==> !cut)
      ensures !cut ==> Good() && lost == 0.0
      ensures old(z) - (if fixed then r else old(a)) + (8 - old(e2)) / 9 <= need ==> !cut
      ensures a >= old(a) && (a == old(a) ==> big[a] <= old(big[a])) && (a < z || (fixed && z >= r + need))
      ensures Printed() + lost == old(Value()) && lost >= 0.0
      ensures fixed && old(e2) <= 0 ==> lost <= Times(2.0, Pow(10.0, 9 * (1 - need)))
      ensures !fixed && old(e2) <= 0 ==>
        lost <= Times(((8 - old(e2)) / 9) as real, Times(Pow(10.0, 9 * (1 - need)), old(Value())))
    {
      hide Pow2, ValueOf, Unit, Times, Pow, Normal, Trimmed, Within;
      ghost var t, rounds := Value(), 0;
      lost := 0.0;
      TrimmedNonempty(big[a..z]);
      LeadUnit(big[a..z], r - a + 1, e2);
      WithinStart(fixed, need, e2, t);
      while e2 < 0
        invariant Left() && Whole() && (old(e2) < 0 ==> r == 0 < z) && (e2 < 0 ==> 9 * z - e2 + 8 <= 9 * big.Length)
        invariant e2 <= 0 || e2 == old(e2)
        invariant (e2 < 0 ==> 9 * rounds == e2 - old(e2)) && (old(e2) <= 0 ==> 9 * rounds <= e2 - old(e2) + 8)
        invariant old(e2) >= 0 ==> e2 == old(e2) && !cut && rounds == 0
        invariant !cut ==> Good() && lost == 0.0
        invariant z <= old(z) + rounds && (old(z) - (if fixed then r else old(a)) + (8 - old(e2)) / 9 <= need ==> !cut)
        invariant a >= old(a) && (a == old(a) ==> big[a] <= old(big[a])) && (a < z || (fixed && z >= r + need))
        invariant Printed() + lost == t && lost >= 0.0
        invariant Within(fixed, need, e2, rounds, t, lost)
      {
        ghost var e, before := e2, Printed();
        ghost var d := DownOnce(fixed, need);
        WithinNext(fixed, need, e, e2, rounds, t, lost, d, before);
        lost := lost + d;
        rounds := rounds + 1;
      }
      if old(e2) <= 0 { WithinEnd(fixed, need, rounds, t, lost, (8 - old(e2)) / 9); }
    }

    /** One round: a shift down, and a cut if there are too many limbs then. */
    method DownOnce(fixed: bool, need: nat) returns (ghost d: real)
      requires Left() && need >= 1 && z < big.Length && e2 < 0
      modifies this`a, this`z, this`e2, this`cut, big
      ensures Left() && z <= old(z) + 1 && e2 == old(e2) + if old(e2) > -9 then 0 - old(e2) else 9
      ensures Printed() + d == old(Printed()) && d >= 0.0
      ensures fixed ==> d <= Unit(1 - need, e2)
      ensures !fixed ==> d <= Times(Pow(10.0, 9 * (1 - need)), old(Printed())) && (old(a < z) ==> a < z)
      ensures !cut ==> !old(cut) && d == 0.0 && (old(Good()) ==> Good())
      ensures 0 < old(z) ==> 0 < z
      ensures fixed && old(a < z || z >= r + need) ==> a < z || z >= r + need
      ensures !old(cut) && old(z) + 1 - (if fixed then r else old(a)) <= need ==> !cut
      ensures a >= old(a) && (a == old(a) ==> big[a] <= old(big[a]))
    {
      hide ValueOf, Unit, Times, Pow, Normal, Trimmed;
      var sh := if -e2 < 9 then -e2 else 9;
      PrintedNonNeg();
      HalveRound(sh);
      d := 0.0;
      NonNeg(Pow(10.0, 9 * (1 - need)), old(Printed()));
      var b := if fixed then r else a;
      if z - b > need {
        d := CutBehind(b, need);
      }
    }

    lemma PrintedNonNeg()
      requires Left()
      ensures Printed() >= 0.0
    {
      hide ValueOf, Unit, Normal;
      if a < z {
        EndsOf(big, a, z);
        LeadUnit(big[a..z], r - a + 1, e2);
      } else {
        PrintsNothing();
      }
    }

    /** Cuts off the limbs from `b + need` on. */
    method CutBehind(b: nat, need: nat) returns (ghost d: real)
      requires Left() && b + need < z && need > 0
      modifies this`z, this`cut
      ensures Left() && z == b + need && cut && Printed() + d == old(Printed())
      ensures 0.0 <= d <= Unit(r + 1 - z, e2)
      ensures a == b ==> d <= Times(Pow(10.0, 9 * (1 - need)), old(Printed()))
    {
      hide ValueOf, Unit, Times, Pow, Normal;
      ghost var s, z1 := if a < z then big[a..z] else [], if b + need < a then a else b + need;
      d := 0.0;
      if a < z {
        CutLoss(s, z1 - a, r - a + 1, e2);
        SlicePart(big, a, z1, z);
        NormalPart(s, big[a..z1], 0);
        UnitMono(r + 1 - z1, r + 1 - (b + need), e2);
        EndsOf(big, a, z);
        LeadUnit(s, r - a + 1, e2);
        UnitSplit(r - a, 1 - need, e2);
        TimesMono(Unit(r - a, e2), Printed(), Pow(10.0, 9 * (1 - need)));
        d := Printed() - ValueOf(big[a..z1], 9 * (r - a + 1), e2);
      } else {
        PrintsNothing();
      }
      z := b + need;
      cut := true;
      if a >= z {
        PrintsNothing();
        NothingLeft(0.0, 9 * (r - a + 1), e2);
        assert big[a..a] == [];
      }
    }

    /** A number before its shifts, with room for them. */
    ghost predicate Ready()
      reads this, big
    {
      && Good() && Whole() && !cut && a == r && 9 * z - e2 + 8 <= 9 * big.Length && 9 * z + 8 <= 9 * big.Length
      && if e2 < 0 then a == 0 && big[0] < 0x2000_0000 else 29 * a > e2 + 28
    }

    /** Shifts until no binary exponent is left. */
    method ToInteger(p: nat, notation: Notation) returns (ghost lost: real)
      requires Ready()
      modifies this`a, this`z, this`e2, this`cut, big
      ensures Left() && Whole() && e2 == 0 && (a == 0 ==> r == 0 && big[0] < 0x2000_0000) &&
        (notation != Fixed ==> a < z)
      ensures notation == Fixed ==> a < z || z >= r + Needed(p)
      ensures Printed() + lost == old(Value()) && 0.0 <= lost <= MostLost(old(Value()), old(e2), p, notation)
      ensures !cut ==> Good() && lost == 0.0
      ensures old(e2) >= 0 || old(z) - old(a) + (8 - old(e2)) / 9 <= Needed(p) ==> !cut
    {
      hide Times, Pow, Normal, MostLost, ValueOf, Trimmed;
      ghost var e0, number := e2, Value();
      TrimmedNonempty(big[a..z]);
      EndsOf(big, a, z);
      PrintedNonNeg();
      ShiftUp();
      TrimmedNonempty(big[a..z]);
      lost := ShiftDown(notation == Fixed, Needed(p));
      LostBound(number, e0, p, notation, lost);
    }

    /** The number that is left to print; without limbs it is 0. */
    ghost function Printed(): real
      reads this, big
      requires z <= big.Length
    {
      if a <= z then Value() else 0.0
    }

    /** The place of the first digit, from the first limb. */
    method CountLead() returns (e: int)
      requires a < big.Length && 0 < big[a] < BASE
      ensures LeadsAt(big[a], r - a, e)
    {
      hide TenPow;
      var i := 10;
      e := 9 * (r - a);
      ghost var k := 0;
      TenPowZero();
      TenPowNext(0);
      TenPowNine();
      while big[a] >= i
        invariant 0 <= k <= 8 && e == 9 * (r - a) + k && i == TenPow(k + 1) && TenPow(k) <= big[a]
        decreases 9 - k
      {
        TenPowNext(k + 1);
        if k == 8 { assert false; }
        i, e := i * 10, e + 1;
        k := k + 1;
      }
    }

    /** The decimal exponent of the number to print. */
    method LeadExponent() returns (e: int)
      requires Left() && e2 == 0
      ensures a >= z ==> e == 0
      ensures a < z ==> 0 <= e - 9 * (r - a) <= 8 && InDecade(e, Printed())
    {
      hide TenPow, InDecade, ValueOf;
      if a >= z {
        return 0;
      }
      SliceAt(big, a, z, 0);
      LeadBelow(big[a..z]);
      e := CountLead();
      Leads(e);
    }

    lemma Leads(e: int)
      requires a < z <= big.Length && Normal(big[a..z]) && e2 == 0 && LeadsAt(big[a], r - a, e)
      ensures InDecade(e, Printed())
    {
      hide Pow, ValueOf, TenPow;
      SliceAt(big, a, z, 0);
      LeadPlace(big[a..z], r - a + 1, e - 9 * (r - a));
    }

    /** Whether a round at limb `d` in steps of `i` goes up. */
    method GoesUp(d: nat, i: nat) returns (up: bool)
      requires Left() && d < z && IsStep(i) && (d >= a || r < d)
      ensures var lo := if a <= d then a else d; var s := big[lo..z];
        Rounds(Kept(s, d - lo, i), Tail(s, d - lo, i), i, up, Good())
      ensures d < a ==> !up && big[d] == 0
    {
      hide Kept, Tail, IsStep, Normal, Int, Rounds, Left, Good;
      LeftHas();
      EvenStep(i);
      var x := big[d] % i;
      if x == 0 && d + 1 == z {
        GoesUpIs(d, i, false);
        return false;
      }
      var odd := big[d] / i % 2 == 1 || (i == BASE && d > a && big[d - 1] % 2 == 1);
      // the probe, in halves: 2^64 or 2^64 + 2, to which 1/2, 1 or 3/2 is added
      var small := if x < i / 2 then 1 else if x == i / 2 && d + 1 == z then 2 else 3;
      up := small == 3 || (small == 2 && odd);
      GoesUpIs(d, i, up);
    }

    /** The decision on the limbs is that on the sequence of limbs. */
    lemma GoesUpIs(d: nat, i: nat, up: bool)
      requires Left() && d < z && IsStep(i) && (d >= a || r < d)
      requires var x := big[d] % i; var odd := big[d] / i % 2 == 1 || (i == BASE && d > a && big[d - 1] % 2 == 1);
        up == if x == 0 && d + 1 == z then false
              else if x < i / 2 then false
              else if x == i / 2 && d + 1 == z then odd
              else true
      ensures var lo := if a <= d then a else d; var s := big[lo..z];
        Rounds(Kept(s, d - lo, i), Tail(s, d - lo, i), i, up, Good())
      ensures d < a ==> !up && big[d] == 0
    {
      hide Kept, Tail, IsStep, Normal, Int, Rounds, Left, Good;
      LeftHas();
      GoodEnd();
      EvenStep(i);
      var lo := if a <= d then a else d;
      var s := big[lo..z];
      NormalFrom(lo);
      SliceAt(big, lo, z, d - lo);
      SliceAt(big, lo, z, z - lo - 1);
      if d > lo { SliceAt(big, lo, z, d - lo - 1); }
      Decision(s, d - lo, i, up);
      RoundsFewer(Kept(s, d - lo, i), Tail(s, d - lo, i), i, up, d + 1 == z || s[|s| - 1] != 0, Good());
    }

    lemma GoodEnd()
      requires Left()
      ensures Good() ==> a < z && big[z - 1] != 0
    {
      hide Normal;
      if Good() {
        TrimmedNonempty(big[a..z]);
        SliceAt(big, a, z, z - a - 1);
      }
    }

    lemma NormalFrom(lo: nat)
      requires Left() && lo <= z && (lo >= a || r <= lo) && (lo <= a || a >= z)
      ensures Normal(big[lo..z])
    {
      if a < z {
        PrefixNormal(big, lo, a, z);
      } else {
        NormalNil(big[z..z]);
        PrefixNormal(big, lo, z, z);
      }
    }

    /** Moves a full limb `d0` into the limbs above it; `d` is the last one that need not be 0. */
    method Carry(d0: nat) returns (d: nat)
      requires a <= d0 < big.Length && AlmostNormal(big[a..d0 + 1], d0 - a)
      requires a == 0 ==> big[0] < BASE && (d0 > 0 ==> big[0] < 0x2000_0000)
      requires big[a] != 0
      modifies this`a, big
      ensures a <= d <= d0 && Normal(big[a..d0 + 1]) && big[a] != 0 && a <= old(a)
      ensures Int(big[a..d0 + 1]) == old(Int(big[a..d0 + 1]))
      ensures forall k | d < k <= d0 :: big[k] == 0
      ensures forall k | 0 <= k < a || d0 < k < big.Length :: big[k] == old(big[k])
    {
      hide Int;
      d := d0;
      while big[d] >= BASE
        invariant a <= d <= d0 && a <= old(a) && big[a] != 0
        invariant AlmostNormal(big[a..d0 + 1], d - a) && Int(big[a..d0 + 1]) == old(Int(big[a..d0 + 1]))
        invariant a == 0 ==> big[0] < BASE && (d > 0 ==> big[0] < 0x2000_0000)
        invariant forall k | d < k <= d0 :: big[k] == 0
        invariant forall k | 0 <= k < a || d0 < k < big.Length :: big[k] == old(big[k])
        decreases d
      {
        CarryOne(d0, d);
        d := d - 1;
      }
      CarryDone(big[a..d0 + 1], d - a);
    }

    /** One full limb becomes 0 and the limb above it, new if need be, grows by 1. */
    method CarryOne(d0: nat, d: nat)
      requires a <= d <= d0 < big.Length && AlmostNormal(big[a..d0 + 1], d - a) && big[d] >= BASE && d > 0
      requires big[a] != 0
      modifies this`a, big
      ensures a <= d - 1 && big[a] != 0 && a == (if old(a) == d then d - 1 else old(a))
      ensures AlmostNormal(big[a..d0 + 1], d - 1 - a) && Int(big[a..d0 + 1]) == old(Int(big[a..d0 + 1]))
      ensures big[d] == 0 && big[d - 1] == if old(a) == d then 1 else old(big[d - 1]) + 1
      ensures forall k | 0 <= k < big.Length && k != d && k != d - 1 :: big[k] == old(big[k])
    {
      hide Int;
      ghost var s, k := big[a..d0 + 1], d - a;
      assert s[k] == big[d];
      if a == d { CarryLead(s); } else { CarryStep(s, k); }
      big[d] := 0;
      if d - 1 < a {
        a := a - 1;
        big[a] := 0;
      }
      big[d - 1] := big[d - 1] + 1;
      if k == 0 {
        assert big[a..d0 + 1] == [1] + s[0 := 0];
      } else {
        assert big[a..d0 + 1] == s[k := 0][k - 1 := s[k - 1] + 1];
      }
    }

    /** The step a round at the `j`-th decimal place uses within its limb. */
    method StepSize(j: int) returns (i: nat)
      ensures i == TenPow(9 - j % 9) && IsStep(i) && (j % 9 != 0 ==> i <= 100_000_000)
    {
      i := 10;
      var k := j % 9 + 1;
      StepIs(9 - j % 9);
      assert TenPow(1) == 10;
      while k < 9
        invariant j % 9 + 1 <= k <= 9 && i == TenPow(k - j % 9)
      {
        i, k := i * 10, k + 1;
      }
    }

    /** Takes `x` off limb `d0` and, going up, adds a step to it. */
    method Settle(d0: nat, x: nat, i: nat, up: bool) returns (d: nat)
      requires d0 < big.Length && (a <= d0 ==> Normal(big[a..d0 + 1])) && (a < d0 ==> big[a] != 0)
      requires x <= big[d0] && big[d0] - x + i <= BASE && i > 0 && (up ==> a <= d0)
      requires a == 0 ==> big[0] < 0x2000_0000 && (d0 == 0 ==> big[0] - x + i < BASE)
      requires a > d0 ==> x == 0
      modifies this`a, big
      ensures d <= d0 && a <= old(a) && (old(a) > d0 ==> d == d0 && unchanged(this) && big[d0] == old(big[d0]))
      ensures old(a) <= d0 ==> a <= d && Normal(big[a..d0 + 1])
      ensures old(a) <= d0 ==> Int(big[a..d0 + 1]) == old(Int(big[a..d0 + 1])) - x + if up then i else 0
      ensures forall k | d < k <= d0 :: big[k] == 0
      ensures forall k | 0 <= k < big.Length && k < a :: big[k] == old(big[k])
      ensures up || a < d0 ==> big[a] != 0
      ensures !up ==> a == old(a)
    {
      hide Normal, Int, AlmostNormal;
      TakeTail(d0, x);
      d := d0;
      if up {
        d := AddStep(d0, i);
      }
    }

    /** Takes the tail off a limb. */
    method TakeTail(d0: nat, x: nat)
      requires d0 < big.Length && x <= big[d0] && (a <= d0 ==> Normal(big[a..d0 + 1]))
      modifies big
      ensures big[d0] == old(big[d0]) - x && forall k | 0 <= k < big.Length && k != d0 :: big[k] == old(big[k])
      ensures a <= d0 ==> Normal(big[a..d0 + 1]) && Int(big[a..d0 + 1]) == old(Int(big[a..d0 + 1])) - x
    {
      hide Normal, Int, AlmostNormal;
      ghost var h := if a <= d0 then big[a..d0] else [];
      if a <= d0 {
        assert big[a..d0 + 1] == h + [big[d0]];
        NormalPart(big[a..d0 + 1], h, 0);
        LimbNormal(big[a..d0 + 1], d0 - a);
        SettleInt(h, big[d0], big[d0] - x);
      }
      big[d0] := big[d0] - x;
      if a <= d0 { assert big[a..d0 + 1] == h + [big[d0]]; }
    }

    /** Adds a step to a limb and carries on from there if it is full then. */
    method AddStep(d0: nat, i: nat) returns (d: nat)
      requires a <= d0 < big.Length && Normal(big[a..d0 + 1]) && (a < d0 ==> big[a] != 0)
      requires big[d0] + i <= BASE && i > 0
      requires a == 0 ==> (d0 > 0 ==> big[0] < 0x2000_0000) && (d0 == 0 ==> big[0] + i < BASE)
      modifies this`a, big
      ensures a <= d <= d0 && a <= old(a) && Normal(big[a..d0 + 1]) && big[a] != 0
      ensures Int(big[a..d0 + 1]) == old(Int(big[a..d0 + 1])) + i
      ensures forall k | d < k <= d0 :: big[k] == 0
      ensures forall k | 0 <= k < a || d0 < k < big.Length :: big[k] == old(big[k])
    {
      hide Normal, Int, AlmostNormal;
      ghost var h, u := big[a..d0], big[d0];
      assert big[a..d0 + 1] == h + [u];
      NormalPart(big[a..d0 + 1], h, 0);
      StepInt(h, u, i);
      big[d0] := big[d0] + i;
      assert big[a..d0 + 1] == h + [u + i];
      d := Carry(d0);
    }

    /** The same, and the exponent of the result if the round goes up. */
    method SettleAndCount(d0: nat, x: nat, i: nat, up: bool, e0: int) returns (d: nat, e: int)
      requires d0 < big.Length && (a <= d0 ==> Normal(big[a..d0 + 1])) && (a < d0 ==> big[a] != 0)
      requires x <= big[d0] && big[d0] - x + i <= BASE && i > 0 && (up ==> a <= d0)
      requires a == 0 ==> big[0] < 0x2000_0000 && (d0 == 0 ==> big[0] - x + i < BASE)
      requires a > d0 ==> x == 0
      modifies this`a, big
      ensures d <= d0 && a <= old(a) && (old(a) > d0 ==> d == d0 && unchanged(this) && big[d0] == old(big[d0]))
      ensures old(a) <= d0 ==> a <= d && Normal(big[a..d0 + 1])
      ensures old(a) <= d0 ==> Int(big[a..d0 + 1]) == old(Int(big[a..d0 + 1])) - x + if up then i else 0
      ensures forall k | d < k <= d0 :: big[k] == 0
      ensures forall k | 0 <= k < big.Length && k < a :: big[k] == old(big[k])
      ensures up || a < d0 ==> big[a] != 0
      ensures if up then LeadsAt(big[a], r - a, e) else e == e0 && a == old(a)
    {
      hide Normal, Int, LeadsAt;
      e := e0;
      d := Settle(d0, x, i, up);
      if up {
        SliceAt(big, a, d0 + 1, 0);
        LeadBelow(big[a..d0 + 1]);
        e := CountLead();
      }
    }

    /** Cuts the number at limb `d0` in steps of `i` and adds a step if the round goes up; then the exponent is
        counted again. */
    method CutAt(d0: nat, i: nat, ghost lo: nat, e0: int) returns (e: int, ghost up: bool)
      requires Left() && d0 < z && IsStep(i) && (d0 >= a || r < d0) && lo == if a <= d0 then a else d0
      requires a == 0 ==> big[0] < 0x2000_0000 && (d0 == 0 ==> i <= 100_000_000)
      modifies this`a, this`z, big
      ensures a <= old(a) && z <= d0 + 1 && (old(a) > d0 ==> a == old(a) && z == d0 + 1)
      ensures old(a) <= d0 ==> a < z && Normal(big[a..d0 + 1])
      ensures var s := old(big[lo..z]); Rounds(Kept(s, d0 - lo, i), Tail(s, d0 - lo, i), i, up, old(Good()))
      ensures var n := Kept(old(big[lo..z]), d0 - lo, i) + if up then 1 else 0;
        if old(a) > d0 then n == 0 else Int(big[a..d0 + 1]) == n * i
      ensures forall k | z <= k <= d0 :: big[k] == 0
      ensures forall k | r <= k < a :: big[k] == 0
      ensures a + 1 < z ==> big[a] != 0
      ensures if up then a < z && big[a] > 0 && LeadsAt(big[a], r - a, e) else e == e0 && a == old(a)
    {
      hide Kept, Tail, IsStep, Normal, Int, Rounds, Trimmed, LeadsAt;
      e := e0;
      ghost var s, m := big[lo..z], d0 - lo;
      NormalFrom(lo);
      KeptSplits(s, m, i);
      var goesUp := GoesUp(d0, i);
      up := goesUp;
      EvenStep(i);
      if d0 < a {
        assert s[0] == big[lo];
        KeptZero(s, m, i);
      }
      LimbNormal(s, m);
      StepFits(big[d0], i);
      var x := big[d0] % i;
      assert s[..m + 1] == big[lo..d0 + 1];
      NormalPart(s, big[lo..d0 + 1], 0);
      StepsOf(Kept(s, m, i), i, goesUp);
      var d;
      d, e := SettleAndCount(d0, x, i, goesUp, e0);
      if z > d + 1 {
        z := d + 1;
      }
    }

    /** Drops limbs of 0 at the end. */
    method DropZeros()
      requires z <= big.Length
      modifies this`z
      ensures z <= old(z) && Printed() == old(Printed()) && (z > a ==> big[z - 1] != 0)
      ensures if old(a <= z) then a <= z else z == old(z)
      ensures forall k | z <= k < old(z) :: big[k] == 0
      ensures old(a < z && big[a] != 0) ==> a < z
    {
      hide ValueOf;
      while z > a && big[z - 1] == 0
        invariant z <= old(z) && Printed() == old(Printed())
        invariant if old(a <= z) then a <= z else z == old(z)
        invariant forall k | z <= k < old(z) :: big[k] == 0
        invariant old(a < z && big[a] != 0) ==> a < z
      {
        assert big[a..z] == big[a..z - 1] + [0];
        ValueZeros(big[a..z - 1], 9 * (r - a + 1), e2);
        z := z - 1;
      }
    }

    /** Rounds at the `j`-th decimal place: `x` is the number and `n` the result, both in units
        of that place.  Unless limbs have been cut off before, the round is half to even. */
    method Round(j: int, e0: int) returns (e: int, ghost x: real, ghost n: nat, ghost up: bool)
      requires Left() && e2 == 0 && (j >= 0 || j >= 9 * (a - r - 1)) && (a >= z ==> j >= 0)
      requires a == 0 ==> big[0] < 0x2000_0000 && j >= -9 * r - 8
      modifies this`a, this`z, big
      ensures Nearest(x, n) && (old(Good()) ==> HalfEven(x, n)) && old(Printed()) == Times(x, Pow(10.0, -j))
      ensures z <= big.Length && Printed() == Times(n as real, Pow(10.0, -j))
      ensures a < z ==> Good()
      ensures a < big.Length && (forall k | r <= k < a :: big[k] == 0) && (j >= 0 && old(Whole()) ==> Whole())
      ensures Sided(x, n, up) && if up then InDecade(e, Printed()) else e == e0 && a == old(a)
      ensures old(a) > r + 1 + j / 9 && old(z) > r + 1 + j / 9 ==> z == r + 2 + j / 9
      ensures old(a < z) && old(a) <= r + 1 + j / 9 ==> a <= z
    {
      hide Kept, Tail, IsStep, Normal, Int, Rounds, ValueOf, Times, Pow, HalfEven, Nearest, TenPow, Trimmed, InDecade;
      hide LeadsAt, Sided, Good, Shape, Left, Whole;
      LeftHas();
      e, up := e0, false;
      if j < 9 * (z - r - 1) {
        e, x, n, up := RoundWithin(j, e0);
      } else if a < z {
        n := WholeUnits(big[a..z], r - a + 1, j);
        x := n as real;
        WholeIsEven(n);
        SidedSelf(n);
      } else {
        x, n := 0.0, 0;
        WholeIsEven(0);
        SidedSelf(0);
        PrintsNothing();
        NothingLeft(Pow(10.0, -j), 0, 0);
      }
      DropEnd(up, e);
    }

    lemma LeftHas()
      requires Left()
      ensures a < big.Length && z <= big.Length && big[a] != 0 && (a < z ==> Normal(big[a..z]) && Shape())
      ensures forall k | r <= k < a :: big[k] == 0
    {
    }

    /** Drops zeros at the end; the number and its first limb stay. */
    method DropEnd(ghost up: bool, ghost e: int)
      requires a < big.Length && z <= big.Length && e2 == 0 && (a < z ==> Shape()) && (a + 1 < z ==> big[a] != 0)
      requires up ==> a < z && big[a] > 0 && LeadsAt(big[a], r - a, e)
      modifies this`z
      ensures z <= old(z) && Printed() == old(Printed()) && (a < z ==> Good()) && (old(Whole()) ==> Whole())
      ensures if old(a <= z) then a <= z else z == old(z)
      ensures up ==> InDecade(e, Printed())
    {
      hide Normal, Int, ValueOf, Times, Pow, TenPow, Trimmed, InDecade, LeadsAt;
      ghost var z1 := z;
      DropZeros();
      if a < z {
        SlicePart(big, a, z, z1);
        NormalPart(big[a..z1], big[a..z], 0);
        EndsOf(big, a, z);
        TrimmedIf(big[a..z]);
        if up { Leads(e); }
      }
    }

    lemma PrintsSome()
      requires a < z <= big.Length && Good()
      ensures Printed() > 0.0
    {
      hide ValueOf, Unit, Normal;
      EndsOf(big, a, z);
      LeadUnit(big[a..z], r - a + 1, e2);
    }

    lemma PrintsNothing()
      requires a >= z && z <= big.Length
      ensures Printed() == 0.0
    {
      hide ValueOf;
      NothingLeft(0.0, 9 * (r - a + 1), e2);
      if a == z { assert big[a..z] == []; }
    }

    /** The case in which there are digits behind the place. */
    method RoundWithin(j: int, e0: int) returns (e: int, ghost x: real, ghost n: nat, ghost up: bool)
      requires Left() && e2 == 0 && (j >= 0 || j >= 9 * (a - r - 1)) && j < 9 * (z - r - 1)
      requires a == 0 ==> big[0] < 0x2000_0000 && j >= -9 * r - 8
      modifies this`a, this`z, big
      ensures Nearest(x, n) && (old(Good()) ==> HalfEven(x, n)) && old(Printed()) == Times(x, Pow(10.0, -j))
      ensures z <= big.Length && Printed() == Times(n as real, Pow(10.0, -j))
      ensures a < z ==> Shape()
      ensures a < big.Length && (forall k | r <= k < a :: big[k] == 0) && (j >= 0 ==> Whole())
      ensures a + 1 < z ==> big[a] != 0
      ensures Sided(x, n, up) && if up then a < z && big[a] > 0 && LeadsAt(big[a], r - a, e) else e == e0 && a == old(a)
      ensures if old(a) > r + 1 + j / 9 then z == r + 2 + j / 9 <= a else a < z
    {
      hide Kept, Tail, IsStep, Normal, Int, Rounds, ValueOf, Times, Pow, HalfEven, Nearest, TenPow, Trimmed, LeadsAt;
      hide Sided, Left, Good;
      LeftHas();
      var d0 := r + 1 + j / 9;
      var i := StepSize(j);
      ghost var lo, exact := if a <= d0 then a else d0, Good();
      ghost var s, m := big[lo..z], d0 - lo;
      NormalFrom(lo);
      PrintedFrom(lo);
      e, up := CutAt(d0, i, lo, e0);
      x, n := RoundTarget(s, m, i, r - lo + 1, j, up, exact);
      CutIsPrinted(d0, i, n);
      if a < z { NormalCut(big, a, z, d0 + 1); }
    }

    /** The number to print, read from a limb that may lie before its first one. */
    lemma PrintedFrom(lo: nat)
      requires Left() && e2 == 0 && lo < z && (lo >= a || r <= lo) && (lo <= a || a >= z)
      ensures Printed() == ValueOf(big[lo..z], 9 * (r - lo + 1), 0)
    {
      hide ValueOf, Normal;
      var k := if a < z then a - lo else z - lo;
      forall i | 0 <= i < k ensures big[lo..z][i] == 0 {
        SliceAt(big, lo, z, i);
      }
      LeadZeros(big[lo..z], k, r - lo + 1, 0);
      SliceTail(big, lo, lo + k, z);
      if a >= z {
        PrintsNothing();
        NothingLeft(0.0, 9 * (r - lo + 1 - k), 0);
        assert big[z..z] == [];
      }
    }

    /** What a cut leaves to print. */
    lemma CutIsPrinted(d0: nat, i: nat, n: nat)
      requires e2 == 0 && z <= d0 + 1 <= big.Length && forall k | z <= k <= d0 :: big[k] == 0
      requires a <= z || n == 0
      requires a <= d0 ==> a <= z && Int(big[a..d0 + 1]) == n * i
      requires a > d0 ==> n == 0
      ensures Printed() == Times(n as real, Times(i as real, Pow(10.0, 9 * (r - d0))))
    {
      hide Int, ValueOf, Times, Pow;
      if a <= d0 {
        CutValue(big[a..d0 + 1], z - a, r - a + 1, n, i);
        SlicePart(big, a, z, d0 + 1);
      } else {
        NothingLeft(Times(i as real, Pow(10.0, 9 * (r - d0))), 9 * (r - a + 1), e2);
        if a == z { assert big[a..z] == []; }
      }
    }
  }

  // ---------- from the significand to the limbs ----------

  /** The limbs to print for a number, rounded at place `j` to `n` units of it, where the number is
      `x` units and a remainder of limbs `lost` on the way. The place depends on the exponent `first` before the
      round; the exponent to print is that of the result. */
  method Format(v: nat, e2: int, precision: int, notation: Notation, long: bool)
    returns (dec: Decimal, j: int, e: int, ghost first: int, ghost x: real, ghost n: nat, ghost lost: real)
    requires if v == 0 then e2 == 0 else Representable(v, e2, long)
    ensures dec.z <= dec.big.Length && dec.Printed() == Times(n as real, Pow(10.0, -j))
    ensures j == Place(PrecisionOf(precision), first, notation) && (v == 0 ==> first == 0 && n == 0)
    ensures dec.a <= dec.big.Length && dec.e2 == 0 && dec.Printable() && (j >= 0 ==> dec.Whole())
    ensures (n > 0 <==> dec.a < dec.z) && (v > 0 && notation != Fixed ==> n > 0) && (v == 0 ==> dec.big[dec.a] == 0)
    ensures v > 0 && notation != Fixed ==> InDecade(first, Number(v, e2) - lost)
    ensures n > 0 ==> InDecade(e, dec.Printed()) && (e == first || (e == first + 1 && dec.Printed() == Pow(10.0, e)))
    ensures (n == 0 ==> e == first) && -100_000 < e < 100_000
    ensures Number(v, e2) == Times(x, Pow(10.0, -j)) + lost && Nearest(x, n)
    ensures !dec.cut ==> lost == 0.0 && HalfEven(x, n)
    ensures e2 >= 0 || 5 + (8 - e2) / 9 <= Needed(PrecisionOf(precision)) ==> !dec.cut
    ensures 0.0 <= lost <= MostLost(Number(v, e2), e2, PrecisionOf(precision), notation)
    ensures v == 0 ==> dec.z <= dec.r
    ensures v > 0 && n == 0 ==>
      dec.z - dec.r - 1 == j / 9 + if Number(v, e2) - lost < Pow(10.0, -9 * (j / 9) - 9) then 1 else 0
  {
    hide Times, Pow, Normal, HalfEven, Number, MostLost, ValueOf, Trimmed, InDecade, Nearest;
    hide Sided, Low, Decimal.Printable, Decimal.Left, Decimal.Good;
    var p := PrecisionOf(precision);
    if v == 0 {
      e, first, j, x, n, lost := 0, 0, Place(p, 0, notation), 0.0, 0, 0.0;
      dec := FormatZero(e2, p, notation, long, j);
      return;
    }
    dec, e, lost := Cleared(v, e2, p, notation, long);
    first := e;
    j := Place(p, e, notation);
    if notation == Fixed { FirstGroup(dec, e, j); }
    e, x, n := RoundOff(dec, j, e);
  }

  /** The number as limbs without a binary exponent, and the place of its first digit. */
  method Cleared(v: nat, e2: int, p: nat, notation: Notation, long: bool)
    returns (dec: Decimal, first: int, ghost lost: real)
    requires Representable(v, e2, long)
    ensures fresh(dec) && fresh(dec.big) && dec.big.Length == SizeFor(long) && dec.a < dec.big.Length
    ensures dec.Left() && dec.Whole() && dec.e2 == 0 && dec.r < dec.big.Length && dec.z <= dec.big.Length
    ensures dec.a == 0 ==> dec.r == 0 && dec.big[0] < 0x2000_0000
    ensures dec.a < dec.z || (notation == Fixed && dec.z >= dec.r + Needed(p))
    ensures dec.Printed() + lost == Number(v, e2) && 0.0 <= lost <= MostLost(Number(v, e2), e2, p, notation)
    ensures !dec.cut ==> dec.Good() && lost == 0.0
    ensures e2 >= 0 || 5 + (8 - e2) / 9 <= Needed(p) ==> !dec.cut
    ensures dec.a < dec.z ==> 0 <= first - 9 * (dec.r - dec.a) <= 8 && InDecade(first, dec.Printed())
    ensures dec.a >= dec.z ==> first == 0
  {
    hide Times, Pow, Normal, Number, MostLost, ValueOf, Trimmed, InDecade, Low, Decimal.Left, Decimal.Good;
    dec := Start(v, e2, long);
    lost := dec.ToInteger(p, notation);
    dec.LeftHas();
    first := dec.LeadExponent();
  }

  /** Whether the first limb lies behind the one of place `j`. */
  lemma FirstGroup(dec: Decimal, first: int, j: nat)
    requires dec.z <= dec.big.Length && if dec.a < dec.z
      then InDecade(first, dec.Printed()) && 0 <= first - 9 * (dec.r - dec.a) <= 8
      else dec.z > dec.r + 1 + j / 9
    ensures dec.a > dec.r + 1 + j / 9 <==> dec.Printed() < Pow(10.0, -9 * (j / 9) - 9)
  {
    hide Pow, ValueOf;
    var k := -9 * (j / 9) - 9;
    if dec.a < dec.z {
      if first < k { PowMono(first + 1, k); } else { PowMono(k, first); }
    } else {
      dec.PrintsNothing();
    }
  }

  /** Rounds the limbs and finds the exponent of the result. */
  method RoundOff(dec: Decimal, j: int, first: int) returns (e: int, ghost x: real, ghost n: nat)
    requires dec.Left() && dec.e2 == 0 && (j >= 0 || j >= 9 * (dec.a - dec.r - 1)) && (dec.a >= dec.z ==> j >= 0)
    requires dec.a == 0 ==> dec.big[0] < 0x2000_0000 && j >= -9 * dec.r - 8
    requires dec.a < dec.z ==> InDecade(first, dec.Printed()) && 0 <= first - 9 * (dec.r - dec.a) <= 8
    modifies dec`a, dec`z, dec.big
    ensures dec.a < dec.big.Length && dec.z <= dec.big.Length && dec.Printable()
    ensures j >= 0 && old(dec.Whole()) ==> dec.Whole()
    ensures (n > 0 <==> dec.a < dec.z) && (old(dec.a < dec.z) && first + j >= 0 ==> n > 0)
    ensures Nearest(x, n) && (old(dec.Good()) ==> HalfEven(x, n)) && old(dec.Printed()) == Times(x, Pow(10.0, -j))
    ensures dec.Printed() == Times(n as real, Pow(10.0, -j))
    ensures n > 0 ==> InDecade(e, dec.Printed()) && (e == first || (e == first + 1 && dec.Printed() == Pow(10.0, e)))
    ensures n == 0 ==> e == first
    ensures n == 0 && j >= 0 && old(dec.a < dec.z || dec.z > dec.r + 1 + j / 9) ==>
      dec.z == dec.r + 1 + j / 9 + if old(dec.a) > dec.r + 1 + j / 9 then 1 else 0
  {
    hide Times, Pow, Normal, HalfEven, ValueOf, Trimmed, InDecade, Nearest, Sided;
    ghost var up, some := false, dec.a < dec.z;
    if !some { dec.PrintsNothing(); }
    e, x, n, up := dec.Round(j, first);
    if some { DecadeAfter(first, e, j, x, n, up); } else { NothingRounds(x, j, n); }
    if n == 0 && up { ZeroUp(e, j); }
    if n == 0 && some && j >= 0 { NotBefore(first, x, j); }
    if dec.a >= dec.z {
      dec.PrintsNothing();
      NearestSelf(n);
      NothingRounds(n as real, j, n);
    } else {
      dec.PrintsSome();
      NothingLeft(Pow(10.0, -j), 0, 0);
    }
    if some && first + j >= 0 { SomethingRounds(first, j, x, n); }
  }

  lemma SidedSelf(n: nat)
    ensures Sided(n as real, n, false)
  {
  }

  /** What is rounded to 0 is less than a unit, so its first limb does not lie before the one of the place. */
  lemma NotBefore(first: int, x: real, j: int)
    requires InDecade(first, Times(x, Pow(10.0, -j))) && Nearest(x, 0) && j >= 0
    ensures first < -j
  {
    hide Pow, Times;
    TimesOrder(x, 1.0, Pow(10.0, -j));
    TimesOne(Pow(10.0, -j));
    PowLess(first, -j);
  }

  lemma SomethingRounds(first: int, j: int, x: real, n: nat)
    requires InDecade(first, Times(x, Pow(10.0, -j))) && first + j >= 0 && Nearest(x, n)
    ensures n > 0
  {
    hide Pow, Times;
    PowSum(first + j, -j);
    assert first + j + -j == first;
    TimesOrder(x, Pow(10.0, first + j), Pow(10.0, -j));
    PowMono(0, first + j);
    PowZero(10.0);
  }

  lemma NearestSelf(n: nat)
    ensures Nearest(n as real, n)
  {
  }

  method FormatZero(e2: int, p: nat, notation: Notation, long: bool, ghost j: int) returns (dec: Decimal)
    requires e2 == 0
    ensures dec.a < dec.big.Length && dec.z <= dec.big.Length && dec.Printable() && dec.Whole() && dec.e2 == 0
    ensures !dec.cut && dec.r == dec.a >= dec.z && dec.big[dec.a] == 0
    ensures dec.Printed() == Times(0.0, Pow(10.0, -j)) == 0.0
    ensures Number(0, e2) == 0.0 && MostLost(0.0, e2, p, notation) >= 0.0 && HalfEven(0.0, 0) && Nearest(0.0, 0)
  {
    hide Times, Pow, Normal, HalfEven, Number, MostLost, ValueOf, Trimmed, Nearest;
    dec := new Decimal(e2, long);
    LowZero();
    dec.Spread(0, 63);
    assert dec.big[dec.a..dec.z][0] == dec.big[dec.a];
    NumberZero(e2, p, notation);
    NothingLeft(Pow(2.0, e2), 0, 0);
    WholeIsEven(0);
    NothingLeft(Pow(10.0, -j), 0, 0);
    dec.DropZeros();
  }

  /** Limbs that have been cut off do not change the result, unless the number is as near to the middle between
      two results as they are worth. */
  lemma CutRight(number: real, x: real, j: int, lost: real, n: nat, m: nat)
    requires number == Times(x, Pow(10.0, -j)) + lost && lost >= 0.0 && Nearest(x, n)
    requires var unit := Pow(10.0, -j);
      lost - unit / 2.0 < number - Times(m as real, unit) < unit / 2.0 - lost
    ensures n == m
  {
    hide Pow, Times;
    var unit := Pow(10.0, -j);
    TimesOrder(2.0 * x, (2 * m + 1) as real, unit);
    TimesOrder((2 * m - 1) as real, 2.0 * x, unit);
    TimesAdd(x, x, unit);
    TimesAdd(m as real, m as real, unit);
    TimesAdd((2 * m) as real, 1.0, unit);
    TimesAdd((2 * m - 1) as real, 1.0, unit);
    TimesOne(unit);
  }

  /** Nothing printed rounds to nothing. */
  lemma NothingRounds(x: real, j: int, n: nat)
    requires Times(x, Pow(10.0, -j)) == 0.0 && Nearest(x, n)
    ensures n == 0
  {
    hide Pow, Times;
    TimesIs(x, Pow(10.0, -j));
    PosProduct(x, Pow(10.0, -j));
  }

  lemma ZeroUp(e: int, j: int)
    ensures !InDecade(e, Times(0.0, Pow(10.0, -j)))
  {
    NothingLeft(Pow(10.0, -j), 0, 0);
  }

  /** The limbs of a number before any shift. */
  method Start(v: nat, e2: int, long: bool) returns (dec: Decimal)
    requires Representable(v, e2, long)
    ensures fresh(dec) && fresh(dec.big) && dec.Ready() && dec.e2 == e2 && dec.Value() == Number(v, e2)
    ensures dec.a == dec.r && dec.z <= dec.a + 5 && dec.big.Length == SizeFor(long)
  {
    hide Times, Pow, Normal, Low, ValueOf, Trimmed;
    dec := new Decimal(e2, long);
    dec.Spread(v, Spare(e2, long));
    EndsOf(dec.big, dec.a, dec.z);
    TrimmedIf(dec.big[dec.a..dec.z]);
  }

  lemma LowZero()
    ensures Low(0, 63) == 0
  {
  }

  lemma NumberZero(e2: int, p: nat, notation: Notation)
    ensures Number(0, e2) == 0.0 && MostLost(0.0, e2, p, notation) >= 0.0
  {
    hide Pow;
  }

  lemma NormalCut(big: array<nat>, a: nat, z: nat, y: nat)
    requires a <= z <= y <= big.Length && Normal(big[a..y])
    ensures Normal(big[a..z])
  {
    SlicePart(big, a, z, y);
    NormalPart(big[a..y], big[a..z], 0);
  }

  lemma StepsOf(kept: nat, i: nat, up: bool)
    ensures kept * i + (if up then i else 0) == (kept + if up then 1 else 0) * i
  {
  }

  /** A number cut at limb `m`, and the whole units it rounds to. */
  lemma RoundTarget(s: seq<nat>, m: nat, i: nat, p: int, j: int, up: bool, exact: bool) returns (x: real, n: nat)
    requires m < |s| && IsStep(i) && Normal(s) && i == TenPow(9 - j % 9) && p - m - 1 == -1 - j / 9
    requires Rounds(Kept(s, m, i), Tail(s, m, i), i, up, exact)
    ensures n == Kept(s, m, i) + if up then 1 else 0
    ensures Nearest(x, n) && (exact ==> HalfEven(x, n)) && ValueOf(s, 9 * p, 0) == Times(x, Pow(10.0, -j))
    ensures Sided(x, n, up)
    ensures Times(i as real, Pow(10.0, 9 * (p - m - 1))) == Pow(10.0, -j)
  {
    hide Kept, Tail, IsStep, Normal, Int, Rounds, ValueOf, Times, Pow, HalfEven, Nearest, TenPow, Sided;
    var kept, tail := Kept(s, m, i), Tail(s, m, i);
    n := kept + if up then 1 else 0;
    x := kept as real + tail / i as real;
    SplitValue(s, m, i, p);
    StepDecided(kept, tail, i, Pow(10.0, 9 * (p - m - 1)), up, exact);
    StepPlace(j);
  }

  /** What is left of `n` steps when the zeros behind limb `k` are cut off. */
  lemma CutValue(g: seq<nat>, k: nat, p: int, n: nat, i: nat)
    requires k <= |g| && Int(g) == n * i && forall t | k <= t < |g| :: g[t] == 0
    ensures ValueOf(g[..k], 9 * p, 0) == Times(n as real, Times(i as real, Pow(10.0, 9 * (p - |g|))))
  {
    hide Int, ValueOf, Times, Pow;
    TrailZeros(g, k, 9 * p, 0);
    IntValue(g, p);
    TimesIs(n as real, i as real);
    assert (n * i) as real == n as real * i as real;
    TimesAssoc(n as real, i as real, Pow(10.0, 9 * (p - |g|)));
  }

  lemma NothingLeft(w: real, rp: int, e: int)
    ensures Times(0.0, w) == 0.0
    ensures ValueOf([], rp, e) == 0.0
  {
    hide Pow;
  }

  lemma LeadBelow(s: seq<nat>)
    requires s != [] && Normal(s)
    ensures s[0] < BASE
  {
  }

  lemma TrimmedIf(s: seq<nat>)
    requires s != [] && s[0] != 0 && s[|s| - 1] != 0
    ensures Trimmed(s)
  {
  }

  lemma KeptZero(s: seq<nat>, m: nat, i: nat)
    requires m == 0 < |s| && s[0] == 0 && i > 0
    ensures Kept(s, m, i) == 0
  {
    assert s[..1] == [] + [0];
    IntAppend([], 0);
  }

  /** The last limb lowered. */
  lemma SettleInt(h: seq<nat>, u: nat, v: nat)
    requires Normal(h) && v <= u < BASE
    ensures Normal(h + [v]) && Int(h + [v]) == Int(h + [u]) - u + v
  {
    hide Int;
    IntAppend(h, u);
    IntAppend(h, v);
  }

  /** The last limb raised. */
  lemma StepInt(h: seq<nat>, u: nat, i: nat)
    requires Normal(h) && u + i <= BASE
    ensures AlmostNormal(h + [u + i], |h|) && Int(h + [u + i]) == Int(h + [u]) + i
  {
    hide Int;
    IntAppend(h, u);
    IntAppend(h, u + i);
  }

  /** Zeros in front of normal limbs. */
  lemma PrefixNormal(big: array<nat>, lo: nat, a: nat, z: nat)
    requires lo <= a <= z <= big.Length && Normal(big[a..z])
    requires forall k | lo <= k < a :: big[k] == 0
    ensures Normal(big[lo..z])
  {
    forall n | 0 <= n < z - lo ensures big[lo..z][n] < BASE {
      if lo + n >= a { assert big[a..z][lo + n - a] == big[lo + n]; }
    }
  }

  lemma {:induction false} DownNormal(l: seq<nat>, carry: nat, p: nat)
    requires p > 0 && BASE % p == 0 && carry <= BASE - BASE / p && p >= 2
    ensures Normal(l) ==> Normal(Down(l, carry, p))
    decreases |l|
  {
    var q := BASE / p;
    assert q * p == BASE;
    assert q >= 1;
    if l != [] {
      var (y, c) := DownLimb(l[0], carry, p);
      DownLimbBound(l[0], carry, p);
      DownNormal(l[1..], c, p);
      if l[0] < BASE { QuotientBelow(l[0], p, q); }
    }
  }

  lemma {:induction false} DownLast(l: seq<nat>, carry: nat, p: nat)
    requires p > 0 && BASE % p == 0 && l != [] && l[|l| - 1] != 0
    ensures var m := Down(l, carry, p); m[|l|] != 0 || m[|l| - 1] != 0
    decreases |l|
  {
    var (y, c) := DownLimb(l[0], carry, p);
    DownUnfold(l, carry, p);
    if |l| == 1 {
      DownUnfold(l[1..], c, p);
      var q := BASE / p;
      assert q * p == BASE;
      assert q >= 1;
      if l[0] % p != 0 { assert c == q * (l[0] % p) >= 1; }
    } else {
      DownLast(l[1..], c, p);
    }
  }

  lemma DownShiftValue(l: seq<nat>, m: seq<nat>, out: seq<nat>, sh: nat, rp: int, e2: int)
    requires l != [] && BASE % Pow2(sh) == 0 && m == Down(l, 0, Pow2(sh))
    requires out == m || (out == m[..|m| - 1] && m[|m| - 1] == 0)
    requires m[0] == 0 ==> out != []
    ensures ValueOf(if m[0] == 0 then out[1..] else out, if m[0] == 0 then rp - 9 else rp, e2 + sh) ==
      ValueOf(l, rp, e2)
  {
    hide Down, Pow2, Frac, Pow, Times, ValueOf;
    var p := Pow2(sh) as real;
    DownFrac(l, 0, Pow2(sh));
    Pow2Is(sh);
    ScaleDown(l, m, p, sh, rp, e2);
    if out != m {
      assert m == out + [0];
      ValueZeros(out, rp, e2 + sh);
    }
    if m[0] == 0 {
      assert out[0] == m[0];
      ValueDropLead(out, rp, e2 + sh);
    }
  }

  lemma ScaleDown(l: seq<nat>, m: seq<nat>, p: real, sh: nat, rp: int, e2: int)
    requires Times(p, Frac(m)) == Frac(l) && p == Pow(2.0, sh)
    ensures ValueOf(m, rp, e2 + sh) == ValueOf(l, rp, e2)
  {
    hide Frac, Pow, Times;
    PowAdd(2.0, e2, sh);
    TimesSwap(p, Pow(2.0, e2));
    ScaleOut(p, Frac(m), Pow(10.0, rp), Pow(2.0, e2));
  }

  lemma TrimmedNonempty(s: seq<nat>)
    requires Trimmed(s)
    ensures s != [] && s[0] >= 1 && s[|s| - 1] >= 1
  {
  }

  /** The limbs `s` after one round on `l`. */
  lemma RoundDone(l: seq<nat>, s: seq<nat>, sh: nat, rp: int, e: int)
    requires l != [] && l[0] >= 1 && 1 <= sh <= 9 && BASE % Pow2(sh) == 0 && s == Halved(l, Pow2(sh)).0
    ensures Normal(l) ==> Normal(s)
    ensures Trimmed(l) ==> Trimmed(s)
    ensures ValueOf(s, if Halved(l, Pow2(sh)).1 then rp - 9 else rp, e + sh) == ValueOf(l, rp, e)
  {
    hide Down, DownLimb, Pow2, ValueOf, Normal;
    var m := Down(l, 0, Pow2(sh));
    var out := if m[|m| - 1] != 0 then m else m[..|m| - 1];
    Pow2Small(sh);
    HalveFacts(l, Pow2(sh));
    if Normal(l) { NormalPart(m, s, if m[0] == 0 then 1 else 0); }
    if Trimmed(l) { OutTrimmed(m, out); }
    DownShiftValue(l, m, out, sh, rp, e);
  }

  lemma OutTrimmed(m: seq<nat>, out: seq<nat>)
    requires |m| >= 2 && (m[0] == 0 ==> m[1] >= 1) && (m[|m| - 1] != 0 || m[|m| - 2] != 0)
    requires out == if m[|m| - 1] != 0 then m else m[..|m| - 1]
    ensures out != [] && Trimmed(if m[0] == 0 then out[1..] else out)
  {
  }

  lemma DropHead(big: array<nat>, a: nat, z: nat)
    requires a < z <= big.Length
    ensures big[a + 1..z] == big[a..z][1..] && big[a..z][0] == big[a]
    ensures a + 1 < z ==> big[a + 1] == big[a..z][1]
  {
  }

  lemma SliceCons(big: array<nat>, d: nat, z: nat)
    requires d < z <= big.Length
    ensures big[d..z][0] == big[d] && big[d..z][1..] == big[d + 1..z]
  {
  }

  lemma SuffixCons(l: seq<nat>, i: nat)
    requires i < |l|
    ensures l[i..][0] == l[i] && l[i..][1..] == l[i + 1..]
  {
  }

  lemma SlicePart(big: array<nat>, a: nat, z: nat, y: nat)
    requires a <= z <= y <= big.Length
    ensures big[a..y][0..z - a] == big[a..y][..z - a] == big[a..z]
  {
  }

  lemma PrefixStep(big: array<nat>, a: nat, d: nat, l: seq<nat>, i: nat)
    requires d == a + i < big.Length && i < |l| && big[a..d + 1] == l[..i + 1]
    ensures big[d] == l[i] && big[a..d] == l[..i]
  {
    assert big[a..d + 1][i] == l[..i + 1][i];
    assert big[a..d + 1][..i] == big[a..d] && l[..i + 1][..i] == l[..i];
  }

  lemma SliceTail(big: array<nat>, a: nat, d: nat, z: nat)
    requires a <= d <= z <= big.Length
    ensures big[a..z][d - a..] == big[d..z]
  {
  }

  lemma SliceAt(big: array<nat>, a: nat, z: nat, n: nat)
    requires a <= z <= big.Length && n < z - a
    ensures big[a..z][n] == big[a + n]
  {
  }

  lemma EndsOf(big: array<nat>, a: nat, z: nat)
    requires a < z <= big.Length
    ensures big[a..z][0] == big[a] && big[a..z][z - a - 1] == big[z - 1]
  {
  }

  lemma SplitCarry(m: seq<nat>, kept: seq<nat>, carry: nat)
    requires m == kept + [carry]
    ensures m[|m| - 1] == carry && m[..|m| - 1] == kept
  {
  }

  /** What a shift down leaves: no limb too large, and no zero at either end that stays. */
  lemma HalveFacts(l: seq<nat>, p: nat)
    requires l != [] && l[0] >= 1 && p >= 2 && BASE % p == 0
    ensures var m := Down(l, 0, p);
      && (Normal(l) ==> Normal(m)) && (m[0] == 0 ==> m[1] >= 1)
      && (l[|l| - 1] != 0 ==> m[|l|] != 0 || m[|l| - 1] != 0)
  {
    hide Normal, Down, DownLimb;
    DownNormal(l, 0, p);
    DownLead(l, p);
    if l[|l| - 1] != 0 { DownLast(l, 0, p); }
  }

  lemma HeadTail(m: seq<nat>, i: nat, y: nat, rest: seq<nat>)
    requires i < |m| && m[i..] == [y] + rest
    ensures m[i] == y && rest == m[i + 1..] && m[..i + 1] == m[..i] + [y]
  {
    assert m[i..][0] == y && m[i..][1..] == m[i + 1..];
  }

  lemma UpLead(l: seq<nat>, p: nat)
    requires l != [] && l[0] >= 1 && p >= 1
    ensures var (t, c) := ScaleUp(l, p); c == 0 ==> t[0] >= 1
  {
    assert l[0] * p >= 1;
  }

  lemma UpDone(l: seq<nat>, t: seq<nat>, carry: nat, sh: nat, rp: int, e2: int)
    requires l != [] && l[0] >= 1 && Normal(l) && (t, carry) == ScaleUp(l, Pow2(sh)) && carry < BASE
    ensures var s := if carry != 0 then [carry] + t else t;
      Normal(s) && s != [] && s[0] != 0
      && ValueOf(s, if carry != 0 then rp + 9 else rp, e2) == ValueOf(l, rp, e2 + sh)
  {
    UpLead(l, Pow2(sh));
    hide ScaleUp, Pow2, ValueOf;
    UpNormal(l, Pow2(sh));
    ShiftValue(l, t, carry, sh, rp, e2);
  }

  /** Shifting the limbs up by `sh` binary places and the exponent down keeps the number. */
  lemma ShiftValue(l: seq<nat>, t: seq<nat>, carry: nat, sh: nat, rp: int, e2: int)
    requires (t, carry) == ScaleUp(l, Pow2(sh))
    ensures ValueOf(if carry != 0 then [carry] + t else t, if carry != 0 then rp + 9 else rp, e2) ==
      ValueOf(l, rp, e2 + sh)
  {
    hide ScaleUp, Pow2, Frac, Pow, Times;
    var p := Pow2(sh) as real;
    UpFracExact(l, Pow2(sh));
    Pow2Is(sh);
    PowAdd(2.0, e2, sh);
    TimesSwap(p, Pow(2.0, e2));
    ScaleOut(p, Frac(l), Pow(10.0, rp), Pow(2.0, e2));
    if carry != 0 {
      var f := Frac([carry] + t);
      FracCons(carry, t);
      PowTen9(rp + 9);
      TimesMove(RBASE, f, Pow(10.0, rp));
      TimesIs(RBASE, f);
      assert Times(RBASE, f) == Times(p, Frac(l));
      assert Times(f, Pow(10.0, rp + 9)) == Times(Times(p, Frac(l)), Pow(10.0, rp));
    }
  }

  lemma UpNil(l: seq<nat>, p: nat)
    ensures ScaleUp(l[|l|..], p) == ([], 0)
  {
  }

  lemma {:induction false} UpNormal(l: seq<nat>, p: nat)
    ensures Normal(ScaleUp(l, p).0)
    decreases |l|
  {
    if l != [] { UpNormal(l[1..], p); }
  }
}
