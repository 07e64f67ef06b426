/** Normal limbs read as one integer, and rounding half to even at a decimal place. */
module Rounding {
  import opened Bits
  import opened Limbs

  ghost predicate Normal(s: seq<nat>) { forall i | 0 <= i < |s| :: s[i] < BASE }

  lemma NormalPart(s: seq<nat>, t: seq<nat>, k: nat)
    requires Normal(s) && k + |t| <= |s| && s[k..k + |t|] == t
    ensures Normal(t)
  {
    assert forall i | 0 <= i < |t| :: t[i] == s[k..k + |t|][i] == s[k + i];
  }

  lemma NormalNil(s: seq<nat>)
    requires s == []
    ensures Normal(s)
  {
  }

  // ---------- rounding ----------

  /** Limbs as one integer. */
  ghost function Int(s: seq<nat>): nat { if s == [] then 0 else Int(s[..|s| - 1]) * BASE + s[|s| - 1] }

  function PowBase(n: nat): (p: nat)
    ensures p > 0
  {
    if n == 0 then 1 else BASE * PowBase(n - 1)
  }

  lemma IntAppend(s: seq<nat>, x: nat)
    ensures Int(s + [x]) == Int(s) * BASE + x
  {
    assert (s + [x])[..|s|] == s;
  }

  lemma IntNext(s: seq<nat>, k: nat)
    requires k < |s|
    ensures Int(s[..k + 1]) == Int(s[..k]) * BASE + s[k]
  {
    assert s[..k + 1] == s[..k] + [s[k]];
    IntAppend(s[..k], s[k]);
  }

  lemma {:induction false} IntFrac(s: seq<nat>)
    ensures Frac(s) == Times(Int(s) as real, Pow(RBASE, -|s|))
    decreases |s|
  {
    hide Frac, Pow, Times;
    if s == [] {
      FracNil();
      PowZero(RBASE);
      TimesOne(0.0);
    } else {
      var t, x := s[..|s| - 1], s[|s| - 1];
      assert s == t + [x];
      IntFrac(t);
      FracAppend(t, x);
      PowNext(RBASE, -|s|);
      var n, w := Int(t), Pow(RBASE, -|s|);
      TimesMove(RBASE, n as real, w);
      TimesIs(RBASE, n as real);
      assert (n * BASE) as real == Times(RBASE, n as real);
      TimesAdd((n * BASE) as real, x as real, w);
      assert Int(s) as real == (n * BASE) as real + x as real;
    }
  }

  /** Changing one limb changes the integer by the difference, weighted by its place. */
  lemma {:induction false} IntPut(s: seq<nat>, k: nat, v: nat)
    requires k < |s|
    ensures Int(s[k := v]) == Int(s) + (v - s[k]) * PowBase(|s| - 1 - k)
    decreases |s|
  {
    var t, x := s[..|s| - 1], s[|s| - 1];
    if k == |s| - 1 {
      assert s[k := v] == t + [v];
      IntAppend(t, v);
      assert PowBase(0) == 1;
    } else {
      IntPut(t, k, v);
      assert s[k := v][..|s| - 1] == t[k := v];
      var p, d := PowBase(|t| - 1 - k), v - s[k];
      PowBaseNext(|t| - 1 - k);
      assert d * p * BASE == d * (BASE * p);
      assert (Int(t) + d * p) * BASE == Int(t) * BASE + d * p * BASE;
    }
  }

  lemma PowBaseNext(n: nat)
    ensures PowBase(n + 1) == BASE * PowBase(n)
  {
  }

  /** Moving a full limb into its left neighbour keeps the integer. */
  lemma IntCarry(s: seq<nat>, k: nat)
    requires 0 < k < |s| && s[k] == BASE
    ensures Int(s[k := 0][k - 1 := s[k - 1] + 1]) == Int(s)
  {
    hide Int, PowBase;
    IntPut(s, k, 0);
    IntPut(s[k := 0], k - 1, s[k - 1] + 1);
    PowBaseNext(|s| - 1 - k);
  }

  lemma {:induction false} IntLeadZero(s: seq<nat>)
    ensures Int([0] + s) == Int(s)
    decreases |s|
  {
    if s == [] {
      assert [0] + s == [] + [0];
      IntAppend([], 0);
    } else {
      var t, x := s[..|s| - 1], s[|s| - 1];
      IntLeadZero(t);
      assert [0] + s == ([0] + t) + [x];
      IntAppend([0] + t, x);
    }
  }

  lemma {:induction false} FracNormal(s: seq<nat>)
    requires Normal(s)
    ensures 0.0 <= Frac(s) < 1.0
    ensures s != [] && s[|s| - 1] != 0 ==> Frac(s) > 0.0
    decreases |s|
  {
    if s != [] {
      var t := s[1..];
      assert Normal(t);
      FracNormal(t);
      if t != [] { assert t[|t| - 1] == s[|s| - 1]; }
    }
  }

  /** Going up or not after `kept` whole steps of `i` units, with a tail of `tail` more: to the
      nearer step, and if the limbs are `exact`, half a step goes to the even one. */
  ghost predicate Rounds(kept: nat, tail: real, i: nat, up: bool, exact: bool) {
    && (2.0 * tail > i as real ==> up) && (2.0 * tail < i as real ==> !up)
    && (exact && 2.0 * tail == i as real ==> (up <==> kept % 2 == 1))
  }

  /** The integer part at limb `m` in steps of `i`, and what lies behind it. */
  ghost function Kept(s: seq<nat>, m: nat, i: nat): nat
    requires m < |s| && i > 0
  {
    Int(s[..m + 1]) / i
  }

  ghost function Tail(s: seq<nat>, m: nat, i: nat): real
    requires m < |s| && i > 0
  {
    (s[m] % i) as real + Frac(s[m + 1..])
  }

  predicate IsStep(i: nat) { i > 1 && BASE % i == 0 && i % 2 == 0 && (i == BASE || BASE / i % 2 == 0) }

  lemma StepIs(k: nat)
    requires 1 <= k <= 9
    ensures IsStep(TenPow(k)) && (k < 9 <==> TenPow(k) < BASE) && (k <= 8 ==> TenPow(k) <= 100_000_000)
  {
    assert TenPow(1) == 10 && TenPow(2) == 100 && TenPow(3) == 1000 && TenPow(4) == 10000 && TenPow(5) == 100000;
    assert TenPow(6) == 1000000 && TenPow(7) == 10000000 && TenPow(8) == 100000000 && TenPow(9) == 1000000000;
  }

  /** The integer up to limb `m` splits at the step, and its parity shows in one limb. */
  lemma KeptSplits(s: seq<nat>, m: nat, i: nat)
    requires m < |s| && IsStep(i) && Normal(s)
    ensures Int(s[..m + 1]) == Kept(s, m, i) * i + s[m] % i
    ensures Kept(s, m, i) % 2 == 1 <==> s[m] / i % 2 == 1 || (i == BASE && m > 0 && s[m - 1] % 2 == 1)
  {
    hide IsStep, Normal;
    EvenStep(i);
    assert s[m] < BASE by { LimbNormal(s, m); }
    var h := Int(s[..m]);
    assert s[..m + 1] == s[..m] + [s[m]];
    IntAppend(s[..m], s[m]);
    StepDivides(h, s[m], i);
    StepParity(h, s[m], i);
    if i == BASE {
      if m > 0 {
        assert s[..m] == s[..m - 1] + [s[m - 1]];
        IntAppend(s[..m - 1], s[m - 1]);
        EvenPlus(Int(s[..m - 1]), s[m - 1]);
        assert h % 2 == s[m - 1] % 2;
      } else {
        assert s[..m] == [] && h == 0;
      }
    }
    hide Int;
    assert Kept(s, m, i) == (h * BASE + s[m]) / i;
  }

  lemma EvenPlus(a: nat, v: nat)
    ensures (a * BASE + v) % 2 == v % 2
  {
    assert a * BASE == 2 * (a * 500_000_000);
  }

  lemma LimbNormal(s: seq<nat>, m: nat)
    requires m < |s| && Normal(s)
    ensures s[m] < BASE
  {
  }

  /** Whole steps and a rest, for a number of which only the last limb need be looked at. */
  lemma StepDivides(h: nat, v: nat, i: nat)
    requires IsStep(i)
    ensures (h * BASE + v) % i == v % i && h * BASE + v == (h * BASE + v) / i * i + v % i
  {
    var q, u, x := BASE / i, v / i, v % i;
    DivSmall(BASE, i);
    DivSmall(v, i);
    hide IsStep, Mul;
    ExpandStep(h, q, i, u, x, BASE, v - x);
    RemainderIs(h * BASE + v, i, Mul(h, q) + u, x);
    DivSmall(h * BASE + v, i);
    TimesSwapNat((h * BASE + v) / i, i);
  }

  lemma TimesSwapNat(a: nat, b: nat)
    ensures a * b == b * a
  {
  }

  lemma ExpandStep(h: nat, q: nat, i: nat, u: nat, x: nat, e: nat, f: nat)
    requires e == i * q && f == i * u
    ensures h * e + (f + x) == i * (Mul(h, q) + u) + x
  {
    assert h * (i * q) == i * (h * q);
  }

  lemma StepParity(h: nat, v: nat, i: nat)
    requires IsStep(i) && v < BASE
    ensures (h * BASE + v) / i % 2 == 1 <==> v / i % 2 == 1 || (i == BASE && h % 2 == 1)
  {
    hide Mul;
    DivSmall(v, i);
    StepQuotient(i, v);
    QuotientOfSum(h, v, i, BASE / i);
    hide IsStep;
    ParityOf(h, BASE / i, v / i, i);
  }

  lemma ParityOf(h: nat, q: nat, u: nat, i: nat)
    requires if i < BASE then q == 2 * (q / 2) else i == BASE && q == 1 && u == 0
    ensures (Mul(h, q) + u) % 2 == 1 <==> u % 2 == 1 || (i == BASE && h % 2 == 1)
  {
    hide Mul;
    MulOne(h);
    if i < BASE { EvenProduct(h, q, q / 2); }
    SumParity(Mul(h, q), u);
  }

  lemma StepQuotient(i: nat, v: nat)
    requires IsStep(i) && v < BASE
    ensures i <= BASE && (i < BASE ==> BASE / i == 2 * (BASE / i / 2))
    ensures i == BASE ==> BASE / i == 1 && v / i == 0
  {
  }

  lemma SumParity(a: nat, b: nat)
    ensures a % 2 == 0 ==> ((a + b) % 2 == 1 <==> b % 2 == 1)
    ensures b == 0 ==> ((a + b) % 2 == 1 <==> a % 2 == 1)
  {
  }

  lemma QuotientOfSum(h: nat, v: nat, i: nat, q: nat)
    requires IsStep(i) && q == BASE / i
    ensures (h * BASE + v) / i == Mul(h, q) + v / i && i <= BASE
  {
    DivSmall(BASE, i);
    DivSmall(v, i);
    hide Mul, IsStep;
    ExpandStep(h, q, i, v / i, v % i, BASE, v - v % i);
    RemainderIs(h * BASE + v, i, Mul(h, q) + v / i, v % i);
    MulMono(1, q, i);
  }

  lemma EvenProduct(h: nat, q: nat, g: nat)
    requires q == 2 * g
    ensures Mul(h, q) % 2 == 0
  {
    assert h * q == 2 * (h * g);
  }

  lemma MulOne(h: nat)
    ensures Mul(h, 1) == h
  {
  }

  /** The number a round decides on: `Kept` steps and a tail, in units of limb `m`. */
  lemma SplitFrac(s: seq<nat>, m: nat, i: nat)
    requires m < |s| && IsStep(i) && Normal(s)
    ensures Frac(s) == Times((Kept(s, m, i) * i) as real + Tail(s, m, i), Pow(RBASE, 0 - m - 1))
    ensures 0.0 <= Tail(s, m, i) < i as real
  {
    hide Kept, Frac, Pow, Times, Int;
    var head, rest := s[..m + 1], s[m + 1..];
    assert s == head + rest;
    FracJoin(head, rest);
    IntFrac(head);
    KeptSplits(s, m, i);
    TimesAdd(Int(head) as real, Frac(rest), Pow(RBASE, 0 - m - 1));
    assert Normal(rest);
    FracNormal(rest);
  }

  lemma {:induction false} FracJoin(s: seq<int>, t: seq<int>)
    ensures Frac(s + t) == Frac(s) + Times(Frac(t), Pow(RBASE, -|s|))
    decreases |s|
  {
    hide Pow, Times;
    if s == [] {
      assert s + t == t;
      PowZero(RBASE);
      TimesOne(Frac(t));
    } else {
      assert (s + t)[1..] == s[1..] + t;
      FracJoin(s[1..], t);
      PowNext(RBASE, -|s|);
      var f, w := Frac(t), Pow(RBASE, -|s|);
      TimesMove(RBASE, f, w);
      TimesIs(RBASE, Times(f, w));
    }
  }

  // ---------- the rounding step ----------

  /** The tail compared with half a step, from the limb and from whether more limbs follow. */
  lemma TailCompare(s: seq<nat>, m: nat, i: nat)
    requires m < |s| && IsStep(i) && Normal(s)
    ensures var x, t := s[m] % i, Tail(s, m, i);
      && (x < i / 2 ==> 2.0 * t < i as real)
      && (x == i / 2 && m + 1 == |s| ==> 2.0 * t == i as real)
      && (x >= i / 2 ==> 2.0 * t >= i as real) && (x > i / 2 ==> 2.0 * t > i as real)
      && (x == i / 2 && m + 1 < |s| && s[|s| - 1] != 0 ==> 2.0 * t > i as real)
      && (x == 0 && m + 1 == |s| ==> t == 0.0)
  {
    hide Frac, IsStep;
    var rest := s[m + 1..];
    NormalPart(s, rest, m + 1);
    FracNormal(rest);
    EvenStep(i);
    if m + 1 == |s| {
      assert rest == [];
      FracNil();
    } else {
      assert rest[|rest| - 1] == s[|s| - 1];
    }
  }

  lemma RoundsFewer(kept: nat, tail: real, i: nat, up: bool, exact: bool, less: bool)
    requires Rounds(kept, tail, i, up, exact) && (less ==> exact)
    ensures Rounds(kept, tail, i, up, less)
  {
  }

  /** The decision from the limb, whether more limbs follow, and two parities. */
  lemma Decision(s: seq<nat>, m: nat, i: nat, up: bool)
    requires m < |s| && IsStep(i) && Normal(s)
    requires var x := s[m] % i; var odd := s[m] / i % 2 == 1 || (i == BASE && m > 0 && s[m - 1] % 2 == 1);
      up == if x == 0 && m + 1 == |s| then false
            else if x < i / 2 then false
            else if x == i / 2 && m + 1 == |s| then odd
            else true
    ensures Rounds(Kept(s, m, i), Tail(s, m, i), i, up, m + 1 == |s| || s[|s| - 1] != 0)
  {
    hide Kept, Tail, IsStep, Normal, Int;
    EvenStep(i);
    KeptSplits(s, m, i);
    TailCompare(s, m, i);
  }

  lemma EvenStep(i: nat)
    requires IsStep(i)
    ensures i / 2 * 2 == i && i > 1
  {
  }

  /** Limbs with one of them possibly full. */
  ghost predicate AlmostNormal(s: seq<nat>, k: int) {
    forall n | 0 <= n < |s| :: s[n] < BASE || (n == k && s[n] == BASE)
  }

  /** Adding a step to a limb from which the part below the step has been taken. */
  lemma StepFits(v: nat, i: nat)
    requires IsStep(i) && v < BASE
    ensures v % i <= v && v - v % i + i <= BASE
    ensures v < 0x2000_0000 && i <= 100_000_000 ==> v - v % i + i < BASE
  {
    var q, u := BASE / i, v / i;
    DivSmall(BASE, i);
    DivSmall(v, i);
    hide IsStep;
    NextStep(i, q, u, v);
  }

  lemma NextStep(i: nat, q: nat, u: nat, v: nat)
    requires i > 0 && i * u <= v < i * q
    ensures i * u + i <= i * q
  {
    if u >= q { MulMono(q, u, i); }
    MulMono(u + 1, q, i);
  }

  // ---------- limbs that are cut off ----------

  /** One unit of the last of `-q` limbs after the point, or of a limb before it. */
  ghost function Unit(q: int, e: int): (u: real)
    ensures u > 0.0
  {
    Product(Pow(10.0, 9 * q), Pow(2.0, e));
    Times(Pow(10.0, 9 * q), Pow(2.0, e))
  }

  lemma Product(a: real, b: real)
    requires a > 0.0 && b > 0.0
    ensures Times(a, b) > 0.0
  {
  }

  lemma UnitMono(p: int, q: int, e: int)
    requires p <= q
    ensures Unit(p, e) <= Unit(q, e)
  {
    hide Pow, Times;
    PowMono(9 * p, 9 * q);
    TimesMono(Pow(10.0, 9 * p), Pow(10.0, 9 * q), Pow(2.0, e));
  }

  lemma {:induction false} UnitGrows(q: int, e: int, sh: nat)
    requires sh > 0
    ensures Times(2.0, Unit(q, e)) <= Unit(q, e + sh)
  {
    hide Pow, Times;
    var w, u := Pow(10.0, 9 * q), Pow(2.0, e + sh - 1);
    PowNext(2.0, e + sh - 1);
    TimesMove(2.0, w, u);
    assert Unit(q, e + sh) == Times(2.0, Unit(q, e + sh - 1));
    if sh > 1 {
      UnitGrows(q, e, sh - 1);
      TimesIs(2.0, Unit(q, e + sh - 1));
    }
  }

  /** The limbs from `k` on are worth less than one unit of the limb before them. */
  lemma CutLoss(s: seq<nat>, k: nat, n: int, e: int)
    requires Normal(s) && k <= |s|
    ensures 0.0 <= ValueOf(s, 9 * n, e) - ValueOf(s[..k], 9 * n, e) < Unit(n - k, e)
  {
    hide Frac, Pow, Times;
    assert s == s[..k] + s[k..];
    FracJoin(s[..k], s[k..]);
    NormalPart(s, s[k..], k);
    FracNormal(s[k..]);
    var f, g, w := Frac(s[..k]), Frac(s[k..]), Pow(RBASE, 0 - k);
    TimesAdd(f, Times(g, w), Pow(10.0, 9 * n));
    TimesAssoc(g, w, Pow(10.0, 9 * n));
    PlaceShift(k, n);
    TimesAdd(Times(f, Pow(10.0, 9 * n)), Times(g, Pow(10.0, 9 * (n - k))), Pow(2.0, e));
    TimesAssoc(g, Pow(10.0, 9 * (n - k)), Pow(2.0, e));
    var u := Unit(n - k, e);
    NonNeg(g, u);
    Product(1.0 - g, u);
    TimesAdd(1.0 - g, g, u);
    TimesOne(u);
  }

  lemma LeadUnit(s: seq<nat>, n: int, e: int)
    requires s != [] && s[0] >= 1 && Normal(s)
    ensures ValueOf(s, 9 * n, e) >= Unit(n - 1, e)
  {
    hide Frac, Pow, Times, ValueOf;
    CutLoss(s, 1, n, e);
    var l := s[..1];
    assert l == [s[0]];
    OneLimb(s[0], n, e);
    TimesMono(1.0, s[0] as real, Unit(n - 1, e));
    TimesOne(Unit(n - 1, e));
  }

  lemma OneLimb(x: nat, n: int, e: int)
    ensures ValueOf([x], 9 * n, e) == Times(x as real, Unit(n - 1, e))
  {
    hide Pow, Times;
    var h := x as real;
    FracNil();
    FracCons(x, []);
    assert [x] + [] == [x];
    assert Frac([x]) == h / RBASE;
    PowTen9(9 * n);
    TimesIs(RBASE, h / RBASE);
    TimesMove(RBASE, h / RBASE, Pow(10.0, 9 * n - 9));
    TimesAssoc(h, Pow(10.0, 9 * n - 9), Pow(2.0, e));
  }

  /** The place of the first digit. */
  lemma LeadPlace(s: seq<nat>, n: int, k: nat)
    requires s != [] && Normal(s) && TenPow(k) <= s[0] < TenPow(k + 1)
    ensures Pow(10.0, 9 * (n - 1) + k) <= ValueOf(s, 9 * n, 0) < Pow(10.0, 9 * (n - 1) + k + 1)
  {
    hide Frac, Pow, Times, ValueOf, Unit, TenPow;
    CutLoss(s, 1, n, 0);
    assert s[..1] == [s[0]];
    OneLimb(s[0], n, 0);
    var h, u := s[0] as real, Unit(n - 1, 0);
    UnitAtZero(n - 1);
    TimesAdd(h, 1.0, u);
    TimesOne(u);
    PlaceOf(k, n);
    PlaceOf(k + 1, n);
    TimesMono(TenPow(k) as real, h, u);
    TimesMono(h + 1.0, TenPow(k + 1) as real, u);
  }

  lemma PlaceOf(k: nat, n: int)
    ensures Times(TenPow(k) as real, Pow(10.0, 9 * (n - 1))) == Pow(10.0, 9 * (n - 1) + k)
  {
    hide Pow, Times, TenPow;
    TenPowIs(k);
    PowAdd(10.0, 9 * (n - 1), k);
    TimesSwap(Pow(10.0, k), Pow(10.0, 9 * (n - 1)));
  }

  lemma UnitAtZero(q: int)
    ensures Unit(q, 0) == Pow(10.0, 9 * q)
  {
    hide Pow, Times;
    PowZero(2.0);
    TimesOne(Pow(10.0, 9 * q));
  }

  lemma UnitSplit(q: int, k: int, e: int)
    ensures Unit(q + k, e) == Times(Pow(10.0, 9 * k), Unit(q, e))
  {
    hide Pow, Times;
    assert 9 * (q + k) == 9 * k + 9 * q;
    PowSum(9 * k, 9 * q);
    TimesAssoc(Pow(10.0, 9 * k), Pow(10.0, 9 * q), Pow(2.0, e));
  }

  /** What is lost over rounds that double the worth of a unit each, at least. */
  lemma UnitsAddUp(q: int, e: int, sh: nat, before: real, d: real)
    requires sh > 0 && before <= Times(2.0, Unit(q, e)) && d <= Unit(q, e + sh)
    ensures before + d <= Times(2.0, Unit(q, e + sh))
  {
    hide Unit;
    UnitGrows(q, e, sh);
    TimesIs(2.0, Unit(q, e + sh));
  }

  /** What is lost over rounds that lose up to a fixed share each. */
  lemma SharesAddUp(n: nat, share: real, before: real, d: real)
    requires before <= Times(n as real, share) && d <= share
    ensures before + d <= Times((n + 1) as real, share)
  {
    hide Times;
    TimesAdd(n as real, 1.0, share);
    TimesOne(share);
  }

  // ---------- the number a round leaves ----------

  lemma {:induction false} PlaceShift(k: nat, n: int)
    ensures Times(Pow(RBASE, 0 - k), Pow(10.0, 9 * n)) == Pow(10.0, 9 * (n - k))
  {
    hide Pow, Times;
    var p := Pow(10.0, 9 * n);
    if k == 0 {
      PowZero(RBASE);
      TimesOne(p);
    } else {
      PlaceShift(k - 1, n);
      PowNext(RBASE, 0 - k);
      PowTen9(9 * (n - k) + 9);
      var u := Pow(RBASE, 0 - k);
      TimesMove(RBASE, u, p);
      TimesIs(RBASE, Times(u, p));
      TimesIs(RBASE, Pow(10.0, 9 * (n - k)));
    }
  }

  lemma ValuePlain(s: seq<int>, rp: int)
    ensures ValueOf(s, rp, 0) == Times(Frac(s), Pow(10.0, rp))
  {
    hide Frac, Pow, Times;
    PowZero(2.0);
    TimesOne(Times(Frac(s), Pow(10.0, rp)));
  }

  /** Limbs with `n` of them before the point, in units of the last limb. */
  lemma IntValue(s: seq<nat>, n: int)
    ensures ValueOf(s, 9 * n, 0) == Times(Int(s) as real, Pow(10.0, 9 * (n - |s|)))
  {
    hide Frac, Pow, Times, ValueOf, Int;
    IntFrac(s);
    ValuePlain(s, 9 * n);
    TimesAssoc(Int(s) as real, Pow(RBASE, -|s|), Pow(10.0, 9 * n));
    PlaceShift(|s|, n);
  }

  lemma SplitValue(s: seq<nat>, m: nat, i: nat, n: int)
    requires m < |s| && IsStep(i) && Normal(s)
    ensures ValueOf(s, 9 * n, 0) == Times((Kept(s, m, i) * i) as real + Tail(s, m, i), Pow(10.0, 9 * (n - m - 1)))
    ensures 0.0 <= Tail(s, m, i) < i as real
  {
    hide Frac, Pow, Times, ValueOf, Int, Kept, Tail, IsStep, Normal;
    SplitFrac(s, m, i);
    ValuePlain(s, 9 * n);
    TimesAssoc((Kept(s, m, i) * i) as real + Tail(s, m, i), Pow(RBASE, 0 - m - 1), Pow(10.0, 9 * n));
    PlaceShift(m + 1, n);
  }

  lemma {:induction false} LeadZeros(s: seq<nat>, k: nat, n: int, e: int)
    requires k <= |s| && forall i | 0 <= i < k :: s[i] == 0
    ensures ValueOf(s, 9 * n, e) == ValueOf(s[k..], 9 * (n - k), e)
    decreases k
  {
    hide ValueOf;
    if k == 0 {
      assert s[0..] == s;
    } else {
      ValueDropLead(s, 9 * n, e);
      LeadZeros(s[1..], k - 1, n - 1, e);
      assert s[1..][k - 1..] == s[k..];
    }
  }

  ghost predicate Nearest(x: real, n: nat) { -1.0 <= 2.0 * (x - n as real) <= 1.0 }

  /** The integer nearest to `x`, the even one of two equally near. */
  ghost predicate HalfEven(x: real, n: nat) {
    && Nearest(x, n)
    && (2.0 * (x - n as real) == 1.0 || 2.0 * (x - n as real) == -1.0 ==> n % 2 == 0)
  }

  /** The result of a round that goes up lies above the number, of one that does not it is the integer below. */
  ghost predicate Sided(x: real, n: nat, up: bool) {
    if up then x <= n as real else n as real <= x < n as real + 1.0
  }

  lemma StepDecided(kept: nat, tail: real, i: nat, w: real, up: bool, exact: bool)
    requires i > 0 && 0.0 <= tail < i as real && Rounds(kept, tail, i, up, exact)
    ensures var x, n := kept as real + tail / i as real, if up then kept + 1 else kept;
      Nearest(x, n) && (exact ==> HalfEven(x, n)) && Sided(x, n, up)
    ensures Times((kept * i) as real + tail, w) == Times(kept as real + tail / i as real, Times(i as real, w))
  {
    var ir := i as real;
    var f := tail / ir;
    assert f * ir == tail;
    HalfBounds(f, tail, ir);
    var x := kept as real + f;
    assert x * ir == (kept * i) as real + tail by { StepProduct(kept, i, f); }
    TimesIs(x, ir);
    TimesAssoc(x, ir, w);
  }

  lemma StepProduct(kept: nat, i: nat, f: real)
    ensures (kept as real + f) * i as real == (kept * i) as real + f * i as real
  {
  }

  lemma HalfBounds(f: real, tail: real, i: real)
    requires i > 0.0 && f * i == tail && 0.0 <= tail < i
    ensures 0.0 <= f < 1.0
    ensures 2.0 * tail > i <==> 2.0 * f > 1.0
    ensures 2.0 * tail == i <==> 2.0 * f == 1.0
  {
    PosProduct(f, i);
    assert (1.0 - f) * i == i - tail;
    PosProduct(1.0 - f, i);
    assert (2.0 * f - 1.0) * i == 2.0 * tail - i;
    PosProduct(2.0 * f - 1.0, i);
  }

  lemma PosProduct(x: real, i: real)
    requires i > 0.0
    ensures (x > 0.0 <==> x * i > 0.0) && (x == 0.0 <==> x * i == 0.0)
  {
    if x > 0.0 { assert x * i > 0.0; } else if x < 0.0 { assert (0.0 - x) * i > 0.0; }
  }

  /** A step in the limb `j / 9 + 1` places after the point is one unit of the `j`-th decimal place. */
  lemma StepPlace(j: int)
    ensures Times(TenPow(9 - j % 9) as real, Pow(10.0, 9 * (-1 - j / 9))) == Pow(10.0, -j)
  {
    hide Pow, Times, TenPow;
    var k := 9 - j % 9;
    TenPowIs(k);
    PowAdd(10.0, 9 * (-1 - j / 9), k);
    TimesSwap(Pow(10.0, k), Pow(10.0, 9 * (-1 - j / 9)));
    assert 9 * (-1 - j / 9) + k == -j;
  }

  /** A number whose last limb is at or above the place is a whole number of units already. */
  lemma WholeUnits(s: seq<nat>, n: int, j: int) returns (u: nat)
    requires j >= 9 * (|s| - n)
    ensures ValueOf(s, 9 * n, 0) == Times(u as real, Pow(10.0, -j))
    ensures HalfEven(u as real, u) && Nearest(u as real, u)
  {
    hide Pow, Times, TenPow, ValueOf, Int, HalfEven;
    IntValue(s, n);
    var k := j - 9 * (|s| - n);
    TenPowIs(k);
    PowAdd(10.0, -j, k);
    u := Int(s) * TenPow(k);
    ProductReal(Int(s), TenPow(k));
    TimesSwap(Pow(10.0, -j), Pow(10.0, k));
    TimesAssoc(Int(s) as real, Pow(10.0, k), Pow(10.0, -j));
    assert -j + k == 9 * (n - |s|);
    WholeIsEven(u);
  }

  lemma WholeIsEven(u: nat)
    ensures HalfEven(u as real, u) && Nearest(u as real, u)
  {
  }

  // ---------- the exponent ----------

  /** `e` is the place of the first digit. */
  ghost predicate InDecade(e: int, y: real) { Pow(10.0, e) <= y < Pow(10.0, e + 1) }

  lemma PowLess(m: int, n: int)
    ensures Pow(10.0, m) < Pow(10.0, n) <==> m < n
  {
    hide Pow;
    if m < n {
      PowMono(m + 1, n);
      PowNext(10.0, m);
      TimesIs(10.0, Pow(10.0, m));
    } else {
      PowMono(n, m);
    }
  }

  lemma TimesOrder(a: real, b: real, w: real)
    requires w > 0.0
    ensures Times(a, w) < Times(b, w) <==> a < b
  {
    hide Times;
    TimesAdd(b - a, a, w);
    TimesIs(b - a, w);
    PosProduct(b - a, w);
  }

  /** Rounding keeps the place of the first digit, or it gives the next power of ten. */
  lemma DecadeAfter(first: int, e: int, j: int, x: real, n: nat, up: bool)
    requires InDecade(first, Times(x, Pow(10.0, -j))) && Nearest(x, n) && Sided(x, n, up)
    requires if up then InDecade(e, Times(n as real, Pow(10.0, -j))) else e == first
    ensures var y := Times(n as real, Pow(10.0, -j));
      n > 0 ==> InDecade(e, y) && (e == first || (e == first + 1 && y == Pow(10.0, e)))
  {
    hide Pow, Times, TenPow;
    var w, k := Pow(10.0, -j), first + j;
    PowSum(k, -j);
    PowSum(k + 1, -j);
    assert k + -j == first && k + 1 + -j == first + 1;
    TimesOrder(x, Pow(10.0, k), w);
    TimesOrder(x, Pow(10.0, k + 1), w);
    assert Pow(10.0, k) <= x < Pow(10.0, k + 1);
    if n > 0 {
      TimesOrder(n as real, Pow(10.0, k), w);
      TimesOrder(Pow(10.0, k + 1), n as real, w);
      PlaceOfOne(k, x, n);
      TimesOrder(n as real, x, w);
      TimesOrder(n as real, Pow(10.0, k + 1), w);
      PowLess(first, e + 1);
      PowLess(first + 1, e);
    }
  }

  lemma PlaceOfOne(k: int, x: real, n: nat)
    requires Pow(10.0, k) <= x < Pow(10.0, k + 1) && Nearest(x, n) && n > 0
    ensures n as real <= Pow(10.0, k + 1)
    ensures n as real <= x < n as real + 1.0 ==> Pow(10.0, k) <= n as real
  {
    hide Pow, TenPow;
    if k + 1 < 0 {
      PowZero(10.0);
      PowNext(10.0, -1);
      TimesIs(10.0, Pow(10.0, -1));
      PowMono(k + 1, -1);
      assert false;
    }
    TenPowIs(k + 1);
    NotAbove(x, n, TenPow(k + 1));
    if k < 0 {
      PowZero(10.0);
      PowMono(k, 0);
    } else {
      TenPowIs(k);
      NotBelow(x, n, TenPow(k));
    }
  }

  lemma NotAbove(x: real, n: nat, m: nat)
    requires x < m as real && Nearest(x, n)
    ensures n as real <= m as real
  {
    assert n >= m + 1 ==> n as real >= (m + 1) as real;
  }

  lemma NotBelow(x: real, n: nat, m: nat)
    requires m as real <= x
    ensures x < n as real + 1.0 ==> m as real <= n as real
  {
    assert m >= n + 1 ==> m as real >= (n + 1) as real;
  }

  // ---------- carrying into the limbs above ----------

  lemma CarryStep(s: seq<nat>, k: nat)
    requires 0 < k < |s| && s[k] == BASE && AlmostNormal(s, k)
    ensures var t := s[k := 0][k - 1 := s[k - 1] + 1]; Int(t) == Int(s) && AlmostNormal(t, k - 1)
  {
    hide Int;
    IntCarry(s, k);
  }

  lemma CarryLead(s: seq<nat>)
    requires s != [] && s[0] == BASE && AlmostNormal(s, 0)
    ensures Int([1] + s[0 := 0]) == Int(s) && AlmostNormal([1] + s[0 := 0], 0)
  {
    hide Int;
    IntLeadZero(s);
    var g := [0] + s;
    assert AlmostNormal(g, 1);
    CarryStep(g, 1);
    assert g[1 := 0][0 := g[0] + 1] == [1] + s[0 := 0];
  }

  lemma CarryDone(s: seq<nat>, k: nat)
    requires k < |s| && AlmostNormal(s, k) && s[k] < BASE
    ensures Normal(s)
  {
  }
}
