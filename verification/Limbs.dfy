/** Base-10^9 limbs as exact numbers. */
module Limbs {
  import Bits

  const BASE := 1_000_000_000
  const RBASE := 1_000_000_000.0
  const LDBL_MANT_DIG := 64

  // Products of reals are kept behind a name; these are the laws used.

  ghost function Times(a: real, b: real): real { a * b }

  lemma TimesIs(a: real, b: real)
    ensures Times(a, b) == a * b
  {
  }

  lemma TimesAssoc(a: real, b: real, c: real)
    ensures Times(Times(a, b), c) == Times(a, Times(b, c))
  {
  }

  lemma TimesOne(a: real)
    ensures Times(a, 1.0) == a && Times(1.0, a) == a
  {
  }

  lemma TimesSwap(a: real, b: real)
    ensures Times(a, b) == Times(b, a)
  {
  }

  /** A factor can move from the first to the second operand. */
  lemma TimesMove(k: real, a: real, b: real)
    ensures Times(Times(k, a), b) == Times(a, Times(k, b)) == Times(k, Times(a, b))
  {
    hide Times;
    TimesSwap(k, a);
    TimesAssoc(a, k, b);
    TimesAssoc(k, a, b);
  }

  lemma TimesAdd(a: real, b: real, c: real)
    ensures Times(a + b, c) == Times(a, c) + Times(b, c)
  {
  }

  /** b^n for any integer n. */
  ghost function Pow(b: real, n: int): (p: real)
    requires b > 0.0
    ensures p > 0.0
    decreases if n < 0 then -n else n
  {
    if n == 0 then 1.0 else if n > 0 then b * Pow(b, n - 1) else Pow(b, n + 1) / b
  }

  lemma PowNext(b: real, n: int)
    requires b > 0.0
    ensures Pow(b, n + 1) == Times(b, Pow(b, n))
  {
  }

  lemma {:induction false} PowAdd(b: real, n: int, k: nat)
    requires b > 0.0
    ensures Pow(b, n + k) == Times(Pow(b, n), Pow(b, k))
  {
    hide Pow, Times;
    if k == 0 {
      PowZero(b);
      TimesOne(Pow(b, n));
    } else {
      PowAdd(b, n, k - 1);
      PowNext(b, n + k - 1);
      PowNext(b, k - 1);
      TimesMove(b, Pow(b, n), Pow(b, k - 1));
    }
  }

  lemma {:induction false} PowMono(m: int, n: int)
    requires m <= n
    ensures Pow(10.0, m) <= Pow(10.0, n)
    decreases n - m
  {
    if m < n {
      PowMono(m, n - 1);
      PowNext(10.0, n - 1);
      TimesIs(10.0, Pow(10.0, n - 1));
    }
  }

  lemma NonNeg(a: real, b: real)
    requires a >= 0.0 && b >= 0.0
    ensures Times(a, b) >= 0.0
  {
  }

  lemma ProductReal(h: nat, p: nat)
    ensures (h * p) as real == Times(h as real, p as real)
  {
  }

  lemma TimesMono(a: real, b: real, p: real)
    requires a <= b && p >= 0.0
    ensures Times(a, p) <= Times(b, p) && Times(p, a) <= Times(p, b)
  {
    hide Times;
    NonNeg(b - a, p);
    TimesAdd(b - a, a, p);
    TimesSwap(a, p);
    TimesSwap(b, p);
  }

  lemma PowZero(b: real)
    requires b > 0.0
    ensures Pow(b, 0) == 1.0
  {
  }

  lemma PowSum(m: int, n: int)
    ensures Pow(10.0, m + n) == Times(Pow(10.0, m), Pow(10.0, n))
  {
    hide Pow, Times;
    if n >= 0 {
      PowAdd(10.0, m, n);
    } else {
      PowAdd(10.0, m + n, -n);
      PowAdd(10.0, n, -n);
      PowZero(10.0);
      assert n + -n == 0 && m + n + -n == m;
      var a, b, c := Pow(10.0, m + n), Pow(10.0, n), Pow(10.0, -n);
      TimesAssoc(a, c, b);
      TimesSwap(b, c);
      TimesOne(a);
    }
  }

  /** The limbs read as digits after a radix point. */
  ghost function Frac(s: seq<int>): real {
    if s == [] then 0.0 else (s[0] as real + Frac(s[1..])) / RBASE
  }

  lemma FracNil()
    ensures Frac([]) == 0.0
  {
  }

  lemma FracCons(x: int, s: seq<int>)
    ensures Frac([x] + s) == (x as real + Frac(s)) / RBASE
  {
    assert ([x] + s)[1..] == s;
  }

  lemma {:induction false} FracAppend(s: seq<int>, x: int)
    ensures Frac(s + [x]) == Frac(s) + Times(x as real, Pow(RBASE, -|s| - 1))
    decreases |s|
  {
    hide Times, Pow;
    var xr, q := x as real, Pow(RBASE, -|s| - 1);
    PowNext(RBASE, -|s| - 1);
    TimesMove(RBASE, xr, q);
    TimesIs(RBASE, Times(xr, q));
    if s == [] {
      assert [x][1..] == [] && s + [x] == [x];
      PowZero(RBASE);
      TimesOne(xr);
    } else {
      assert (s + [x])[1..] == s[1..] + [x];
      FracAppend(s[1..], x);
    }
  }

  ghost predicate Bounded(s: seq<int>, max: int) { forall i | 0 <= i < |s| :: 0 <= s[i] <= max }

  lemma {:induction false} FracBounds(s: seq<int>)
    requires Bounded(s, BASE)
    ensures 0.0 <= Frac(s) <= RBASE / (RBASE - 1.0)
  {
    if s != [] { FracBounds(s[1..]); }
  }

  // ---------- multiplying by 2^29 from the low end ----------

  /** One limb of the shift up: the new limb and the carry into the next higher one. */
  function UpLimb(x: nat, carry: nat): (r: (nat, nat))
    ensures r.0 + r.1 * BASE == x * 0x2000_0000 + carry
    ensures r.0 <= BASE
    ensures x < 0x4000_0000 && carry < 0x4000_0000 ==> r.1 < 0x4000_0000
    ensures x <= BASE && carry <= 0x2000_0000 ==> r.1 <= 0x2000_0000
    ensures x >= 2 ==> r.1 >= 1
    ensures x >= 1 ==> r.0 + r.1 >= 1
    ensures r.1 == 0 ==> r.0 >= x * 0x2000_0000
  {
    var tmp := x * 0x2000_0000 + carry;
    if tmp > BASE then (tmp % BASE, tmp / BASE) else (tmp, 0)
  }

  /** One more limb below which the shifted tail is already known. */
  lemma UpFrac(x: nat, carry: nat, tail: seq<int>, tail': seq<int>)
    requires carry as real + Frac(tail') == 536870912.0 * Frac(tail)
    ensures var (y, c) := UpLimb(x, carry); c as real + Frac([y] + tail') == 536870912.0 * Frac([x] + tail)
  {
    var (y, c) := UpLimb(x, carry);
    assert ([y] + tail')[1..] == tail' && ([x] + tail)[1..] == tail;
    assert y as real + c as real * RBASE == x as real * 536870912.0 + carry as real;
  }

  // ---------- dividing from the high end ----------

  /** One limb divided by `p`, a divisor of 10^9, with the carry from the limb above. */
  function DownLimb(x: nat, carry: nat, p: nat): (r: (nat, nat))
    requires p > 0 && BASE % p == 0
  {
    (x / p + carry, BASE / p * (x % p))
  }

  lemma DownLimbExact(x: nat, carry: nat, p: nat)
    requires p > 0 && BASE % p == 0
    ensures var (y, c) := DownLimb(x, carry, p);
      (y - carry) * BASE * p + c * p == x * BASE
  {
    var q := BASE / p;
    assert q * p == BASE;
    assert x == p * (x / p) + x % p;
    var u, v := x / p, x % p;
    calc {
      u * BASE * p + q * v * p;
      (p * u) * BASE + (q * p) * v;
      (p * u + v) * BASE;
    }
  }

  /** All limbs divided by `p`, most significant first; the last carry becomes a new limb. */
  function Down(s: seq<nat>, carry: nat, p: nat): (r: seq<nat>)
    requires p > 0 && BASE % p == 0
    ensures |r| == |s| + 1
  {
    if s == [] then [carry]
    else
      var (y, c) := DownLimb(s[0], carry, p);
      [y] + Down(s[1..], c, p)
  }

  lemma DownUnfold(s: seq<nat>, carry: nat, p: nat)
    requires p > 0 && BASE % p == 0
    ensures s == [] ==> Down(s, carry, p) == [carry]
    ensures s != [] ==> var (y, c) := DownLimb(s[0], carry, p); Down(s, carry, p) == [y] + Down(s[1..], c, p)
  {
    hide DownLimb;
  }

  lemma DownStep(l: seq<nat>, i: nat, carry: nat, p: nat)
    requires p > 0 && BASE % p == 0 && i < |l|
    ensures var (y, c) := DownLimb(l[i], carry, p); Down(l[i..], carry, p) == [y] + Down(l[i + 1..], c, p)
  {
    DownUnfold(l[i..], carry, p);
    assert l[i..][0] == l[i] && l[i..][1..] == l[i + 1..];
  }

  lemma DownArith(p: nat, y: nat, carry: nat, c: nat, x: nat, tail: real, tail': real)
    requires (y - carry) * BASE * p + c * p == x * BASE
    requires p as real * tail' == tail + (p * c) as real / RBASE
    ensures p as real * ((y as real + tail') / RBASE) == (x as real + tail) / RBASE + (p * carry) as real / RBASE
  {
    var u, v, w := p * y, p * carry, p * c;
    assert (u - v) * BASE + w == x * BASE by {
      assert (y - carry) * BASE * p == (u - v) * BASE;
    }
    assert p as real * y as real == u as real;
    assert p as real * ((y as real + tail') / RBASE) == (u as real + p as real * tail') / RBASE;
  }

  /** Dividing limb by limb divides the number exactly. */
  lemma {:induction false} DownFrac(s: seq<nat>, carry: nat, p: nat)
    requires p > 0 && BASE % p == 0
    ensures Times(p as real, Frac(Down(s, carry, p))) == Frac(s) + (p * carry) as real / RBASE
    decreases |s|
  {
    hide DownLimb, Frac, Down;
    if s == [] {
      DownUnfold(s, carry, p);
      FracNil();
      FracCons(carry, []);
      assert [carry] + [] == [carry];
    } else {
      var x := s[0];
      var (y, c) := DownLimb(x, carry, p);
      DownFrac(s[1..], c, p);
      DownLimbExact(x, carry, p);
      DownUnfold(s, carry, p);
      FracCons(y, Down(s[1..], c, p));
      FracCons(x, s[1..]);
      assert s == [x] + s[1..];
      DownArith(p, y, carry, c, x, Frac(s[1..]), Frac(Down(s[1..], c, p)));
    }
  }

  lemma DownLimbBound(x: nat, carry: nat, p: nat)
    requires p > 0 && BASE % p == 0 && carry <= BASE - BASE / p
    ensures x <= BASE ==> DownLimb(x, carry, p).0 <= BASE
    ensures DownLimb(x, carry, p).1 <= BASE - BASE / p
  {
    var q := BASE / p;
    assert q * p == BASE;
    if x <= BASE { assert x / p <= q by { DivMono(x, BASE, p); } }
    var m := x % p;
    assert q * m <= q * (p - 1) == BASE - q;
  }

  lemma DivMono(a: nat, b: nat, p: nat)
    requires p > 0 && a <= b
    ensures a / p <= b / p
  {
    var u, v := a / p, b / p;
    assert a == p * u + a % p && b == p * v + b % p;
    assert p * (v - u) == p * v - p * u;
    MulSign(p, v - u);
  }

  lemma MulSign(p: nat, k: int)
    requires p * k + p > 0
    ensures k >= 0
  {
    assert p * k + p == p * (k + 1);
    MulNonPos(p, if k < 0 then k + 1 else 0);
  }

  lemma {:induction false} MulNonPos(p: nat, k: int)
    requires k <= 0
    ensures p * k <= 0
  {
    if p > 0 {
      MulNonPos(p - 1, k);
      assert p * k == (p - 1) * k + k;
    }
  }

  /** Limbs of at most 10^9 stay so; the two shift amounts also keep limbs below 2^30. */
  lemma {:induction false} DownBounded(s: seq<nat>, carry: nat, p: nat)
    requires p > 0 && BASE % p == 0 && carry <= BASE - BASE / p
    ensures Bounded(s, BASE) ==> Bounded(Down(s, carry, p), BASE)
    ensures (p == 2 || p == 512) && Bounded(s, 0x3FFF_FFFF) ==> Bounded(Down(s, carry, p), 0x3FFF_FFFF)
    decreases |s|
  {
    if s != [] {
      DownLimbBound(s[0], carry, p);
      DownBounded(s[1..], DownLimb(s[0], carry, p).1, p);
      assert s[0] <= 0x3FFF_FFFF && p == 512 ==> s[0] / 512 <= 0x1F_FFFF;
    }
  }

  /** If the leading limb of a quotient is 0, the next one is not. */
  lemma DownLead(s: seq<nat>, p: nat)
    requires p > 0 && BASE % p == 0 && s != [] && s[0] >= 1
    ensures var m := Down(s, 0, p); m[0] == s[0] / p && (m[0] == 0 ==> m[1] >= BASE / p && BASE / p >= 1)
  {
    hide Down, DownLimb;
    var (y, c) := DownLimb(s[0], 0, p);
    DownUnfold(s, 0, p);
    DownUnfold(s[1..], c, p);
    CarryOfAll(s[0], p, y, c);
    if s[1..] != [] { CarryStays(s[1], c, p); }
  }

  lemma CarryStays(x: nat, c: nat, p: nat)
    requires p > 0 && BASE % p == 0
    ensures DownLimb(x, c, p).0 >= c
  {
    Bits.DivSmall(x, p);
  }

  /** Of a limb smaller than the divisor everything goes into the carry. */
  lemma CarryOfAll(x: nat, p: nat, y: nat, c: nat)
    requires p > 0 && BASE % p == 0 && x >= 1 && DownLimb(x, 0, p) == (y, c)
    ensures y == x / p && BASE / p >= 1 && (y == 0 ==> c >= BASE / p)
  {
    Bits.DivSmall(BASE, p);
    Bits.DivSmall(x, p);
    if x / p == 0 { Bits.MulMono(1, x, BASE / p); }
  }

  /** The same without the quotient. */
  lemma LeadOf(l: seq<nat>, p: nat)
    requires l != [] && l[0] >= 1 && p > 0 && BASE % p == 0
    ensures var m := Down(l, 0, p); m[0] <= l[0] && (m[0] == 0 ==> m[1] >= 1)
  {
    hide Down;
    DownLead(l, p);
    Bits.DivSmall(l[0], p);
  }

  /** Shifting up the limbs below the leading one: trailing limbs that become 0 are dropped. */
  function UpTail(t: seq<nat>): (r: (seq<nat>, nat))
    ensures |r.0| <= |t|
  {
    if t == [] then ([], 0)
    else
      var (t', c) := UpTail(t[1..]);
      var (y, c') := UpLimb(t[0], c);
      if t' == [] && y == 0 then ([], c') else ([y] + t', c')
  }

  lemma UpTailStep(l: seq<nat>, i: nat)
    requires i < |l|
    ensures var (t, c) := UpTail(l[i + 1..]); var (y, c') := UpLimb(l[i], c);
      UpTail(l[i..]) == if t == [] && y == 0 then ([], c') else ([y] + t, c')
  {
    assert l[i..][0] == l[i] && l[i..][1..] == l[i + 1..];
  }

  lemma {:induction false} UpTailFrac(t: seq<nat>)
    ensures var (t', c) := UpTail(t); c as real + Frac(t') == 536870912.0 * Frac(t)
    decreases |t|
  {
    if t != [] {
      var (t', c) := UpTail(t[1..]);
      UpTailFrac(t[1..]);
      UpFrac(t[0], c, t[1..], t');
      assert t == [t[0]] + t[1..];
      FracCons(0, []);
      assert [0] + [] == [0];
    }
  }

  lemma {:induction false} UpTailBounded(t: seq<nat>)
    ensures Bounded(UpTail(t).0, BASE)
    ensures Bounded(t, 0x3FFF_FFFF) ==> UpTail(t).1 <= 0x3FFF_FFFF
    ensures Bounded(t, BASE) ==> UpTail(t).1 <= 0x2000_0000
    decreases |t|
  {
    if t != [] { UpTailBounded(t[1..]); }
  }

  /** The top three limbs as one integer; missing limbs count as 0. */
  function Top(s: seq<nat>): nat {
    (if |s| > 0 then s[0] else 0) * BASE * BASE + (if |s| > 1 then s[1] else 0) * BASE + if |s| > 2 then s[2] else 0
  }

  /** The number is its top three limbs and a small rest. */
  lemma TopFrac(s: seq<nat>)
    requires Bounded(s, BASE)
    ensures var rest := Frac(s) * RBASE * RBASE * RBASE - Top(s) as real;
      0.0 <= rest <= RBASE / (RBASE - 1.0)
  {
    if |s| <= 3 {
      TopShort(s);
    } else {
      var r := s[3..];
      FracBounds(r);
      assert s == [s[0]] + ([s[1]] + ([s[2]] + r));
      FracCons(s[2], r);
      FracCons(s[1], [s[2]] + r);
      FracCons(s[0], [s[1]] + ([s[2]] + r));
    }
  }

  lemma TopShort(s: seq<nat>)
    requires |s| <= 3
    ensures Frac(s) * RBASE * RBASE * RBASE == Top(s) as real
  {
    if |s| > 0 { assert s[1..] == if |s| > 1 then [s[1]] + s[2..] else []; }
    if |s| > 1 { assert s[2..] == if |s| > 2 then [s[2]] else []; }
  }

  /** The exact number: limbs after the radix point, a power of ten and a power of two. */
  ghost function ValueOf(s: seq<int>, rp: int, e2: int): real {
    Times(Times(Frac(s), Pow(10.0, rp)), Pow(2.0, e2))
  }

  lemma FracZeros(s: seq<int>)
    ensures Frac(s + [0]) == Frac(s)
  {
    hide Frac, Pow;
    FracAppend(s, 0);
  }

  lemma ValueZeros(s: seq<int>, rp: int, e2: int)
    ensures ValueOf(s + [0], rp, e2) == ValueOf(s, rp, e2)
  {
    hide Pow, Frac;
    FracZeros(s);
  }

  lemma {:induction false} TrailZeros(s: seq<int>, k: nat, rp: int, e: int)
    requires k <= |s| && forall i | k <= i < |s| :: s[i] == 0
    ensures ValueOf(s, rp, e) == ValueOf(s[..k], rp, e)
    decreases |s| - k
  {
    hide ValueOf;
    if k == |s| {
      assert s[..k] == s;
    } else {
      assert s == s[..|s| - 1] + [0];
      ValueZeros(s[..|s| - 1], rp, e);
      TrailZeros(s[..|s| - 1], k, rp, e);
      assert s[..|s| - 1][..k] == s[..k];
    }
  }

  lemma PowTen9(rp: int)
    ensures Pow(10.0, rp) == Times(RBASE, Pow(10.0, rp - 9))
  {
    hide Pow, Times;
    PowAdd(10.0, rp - 9, 9);
    PowTenIs();
    TimesSwap(RBASE, Pow(10.0, rp - 9));
  }

  lemma PowTenIs()
    ensures Pow(10.0, 9) == RBASE
  {
    assert Pow(10.0, 1) == 10.0;
    assert Pow(10.0, 3) == 1000.0;
    assert Pow(10.0, 5) == 100_000.0;
    assert Pow(10.0, 7) == 10_000_000.0;
  }

  /** A number in its first limb alone. */
  lemma LeadAlone(s: seq<int>, rp: int)
    requires s != [] && forall i | 1 <= i < |s| :: s[i] == 0
    ensures ValueOf(s, rp, 0) == Times(s[0] as real, Pow(10.0, rp - 9))
  {
    hide Pow, Times;
    TrailZeros(s, 1, rp, 0);
    assert s[..1] == [s[0]] + [];
    var h := s[0] as real;
    FracNil();
    FracCons(s[0], []);
    PowTen9(rp);
    TimesIs(RBASE, h / RBASE);
    TimesMove(RBASE, h / RBASE, Pow(10.0, rp - 9));
    PowZero(2.0);
    TimesOne(Times(h / RBASE, Pow(10.0, rp)));
  }

  /** A leading 0 limb can be dropped by moving the radix point. */
  lemma ValueDropLead(s: seq<int>, rp: int, e2: int)
    requires s != [] && s[0] == 0
    ensures ValueOf(s, rp, e2) == ValueOf(s[1..], rp - 9, e2)
  {
    assert Times(RBASE, Frac(s)) == Frac(s[1..]);
    hide Pow, Times, Frac;
    PowTen9(rp);
    TimesMove(RBASE, Frac(s), Pow(10.0, rp - 9));
  }

  /** A new leading limb moves the radix point the other way. */
  lemma ValueAddLead(c: nat, m: seq<int>, l: seq<int>, rp: int, e2: int)
    requires c as real + Frac(m) == 536870912.0 * Frac(l)
    ensures ValueOf([c] + m, rp + 9, e2) == ValueOf(l, rp, e2 + 29)
  {
    AddLeadTimes(c, m, l);
    hide Pow, Frac, Times;
    PowTen9(rp + 9);
    TimesMove(RBASE, Frac([c] + m), Pow(10.0, rp));
    PowTwo(e2, 29, 536870912.0);
    ScaleOut(536870912.0, Frac(l), Pow(10.0, rp), Pow(2.0, e2));
  }

  lemma AddLeadTimes(c: nat, m: seq<int>, l: seq<int>)
    requires c as real + Frac(m) == 536870912.0 * Frac(l)
    ensures Times(RBASE, Frac([c] + m)) == Times(536870912.0, Frac(l))
  {
    FracCons(c, m);
    hide Frac;
  }

  lemma ScaleOut(k: real, f: real, p: real, q: real)
    ensures Times(Times(Times(k, f), p), q) == Times(Times(f, p), Times(k, q))
  {
    hide Times;
    TimesMove(k, f, p);
    TimesMove(k, Times(f, p), q);
  }

  lemma PowTwo(e2: int, k: nat, v: real)
    requires (k == 1 && v == 2.0) || (k == 9 && v == 512.0) || (k == 29 && v == 536870912.0)
    ensures Pow(2.0, e2 + k) == Times(v, Pow(2.0, e2))
  {
    hide Pow, Times;
    PowAdd(2.0, e2, k);
    PowTwoIs();
    TimesSwap(v, Pow(2.0, e2));
  }

  lemma PowTwoIs()
    ensures Pow(2.0, 1) == 2.0 && Pow(2.0, 9) == 512.0 && Pow(2.0, 29) == 536870912.0
  {
    assert Pow(2.0, 5) == 32.0;
    PowAdd(2.0, 5, 4);
    assert Pow(2.0, 4) == 16.0;
    PowAdd(2.0, 5, 5);
    PowAdd(2.0, 10, 10);
    PowAdd(2.0, 20, 9);
  }

  /** Scaling the limbs by v = 2^k and the exponent the other way keeps the number. */
  lemma ValueScale(m: seq<int>, l: seq<int>, rp: int, e2: int, k: nat, v: real)
    requires (k == 1 && v == 2.0) || (k == 9 && v == 512.0) || (k == 29 && v == 536870912.0)
    requires Frac(m) == Times(v, Frac(l))
    ensures ValueOf(m, rp, e2) == ValueOf(l, rp, e2 + k)
  {
    hide Pow, Frac, Times;
    PowTwo(e2, k, v);
    ScaleOut(v, Frac(l), Pow(10.0, rp), Pow(2.0, e2));
  }

  /** Dividing the limbs by 10^k and moving the radix point keeps the number. */
  lemma ValueAlign(m: seq<int>, l: seq<int>, rp: int, e2: int, k: nat, p: real)
    requires Pow(10.0, k) == p && Frac(l) == Times(p, Frac(m))
    ensures ValueOf(m, rp + k, e2) == ValueOf(l, rp, e2)
  {
    hide Pow, Frac, Times;
    PowAdd(10.0, rp, k);
    TimesSwap(p, Pow(10.0, rp));
    TimesMove(p, Frac(m), Pow(10.0, rp));
  }

  /** Halving the limbs halves the top three as an integer. */
  lemma HalfTop(l: seq<nat>)
    requires l != []
    ensures var m := Down(l, 0, 2); 2 * Top(m) <= Top(l) <= 2 * Top(m) + 1
  {
    DownUnfold(l, 0, 2);
    var c := DownLimb(l[0], 0, 2).1;
    DownUnfold(l[1..], c, 2);
    if |l| > 1 {
      var c2 := DownLimb(l[1], c, 2).1;
      DownUnfold(l[1..][1..], c2, 2);
    }
  }

  function TenPow(n: nat): (p: nat)
    ensures p > 0
  {
    if n == 0 then 1 else 10 * TenPow(n - 1)
  }

  lemma {:induction false} TenPowIs(n: nat)
    ensures TenPow(n) as real == Pow(10.0, n)
  {
    hide Pow, Times;
    if n > 0 {
      TenPowIs(n - 1);
      PowNext(10.0, n - 1);
      TimesIs(10.0, Pow(10.0, n - 1));
    } else {
      PowZero(10.0);
    }
  }

  lemma TenPowNext(n: nat)
    ensures TenPow(n + 1) == 10 * TenPow(n)
  {
  }

  lemma TenPowZero()
    ensures TenPow(0) == 1
  {
  }

  lemma TenPowNine()
    ensures TenPow(9) == BASE
  {
    assert TenPow(3) == 1000;
    assert TenPow(6) == 1000000;
  }
}
