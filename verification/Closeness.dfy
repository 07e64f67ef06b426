/**
 How close numbers stay when limbs are folded or marked for want of room: each time by the relative error
 `Eps`, a unit of the last limb that is kept.
 */
module Closeness {
  import opened Limbs

  const PLACES := 2045  // limbs that are always kept

  ghost function Eps(): real { 10.0 * Pow(RBASE, -PLACES) }

  /** One such step. */
  ghost predicate OneStep(v: real, w: real) { Times(1.0 - Eps(), v) <= w <= Times(1.0 + Eps(), v) }

  /** What is at least left of 1 after `k` steps, and what it is at most. */
  ghost function Least(k: nat): real { if k == 0 then 1.0 else Times(1.0 - Eps(), Least(k - 1)) }

  ghost function Most(k: nat): real { if k == 0 then 1.0 else Times(1.0 + Eps(), Most(k - 1)) }

  /** `w` is `v` up to `k` steps. */
  ghost predicate Near(v: real, w: real, k: nat) { Times(Least(k), v) <= w <= Times(Most(k), v) }

  lemma {:induction false} PowFalls(n: nat)
    requires n > 0
    ensures Pow(RBASE, 0 - n) <= 0.000000001
  {
    PowNext(RBASE, 0 - n);
    TimesIs(RBASE, Pow(RBASE, 0 - n));
    if n == 1 {
      PowZero(RBASE);
    } else {
      PowFalls(n - 1);
      assert 0 - n + 1 == 0 - (n - 1);
    }
  }

  lemma EpsSmall()
    ensures 0.0 < Eps() <= 0.00000001
  {
    hide Pow;
    PowFalls(PLACES);
  }

  lemma NearSame(v: real)
    requires v >= 0.0
    ensures Near(v, v, 0) && OneStep(v, v)
  {
    hide Times, Eps;
    EpsSmall();
    TimesOne(v);
    TimesMono(1.0 - Eps(), 1.0, v);
    TimesMono(1.0, 1.0 + Eps(), v);
  }

  /** A step more. */
  lemma NearNext(v: real, w: real, x: real, k: nat)
    requires Near(v, w, k) && OneStep(w, x)
    ensures Near(v, x, k + 1)
  {
    hide Times, Eps;
    EpsSmall();
    TimesMono(Times(Least(k), v), w, 1.0 - Eps());
    TimesMono(w, Times(Most(k), v), 1.0 + Eps());
    TimesAssoc(1.0 - Eps(), Least(k), v);
    TimesAssoc(1.0 + Eps(), Most(k), v);
  }

  lemma {:induction false} NearMore(v: real, w: real, k: nat, n: nat)
    requires Near(v, w, k) && k <= n && v >= 0.0
    ensures Near(v, w, n)
    decreases n
  {
    hide Times, Eps;
    if k < n {
      NearMore(v, w, k, n - 1);
      EpsSmall();
      Positive(n - 1);
      TimesOne(Least(n - 1));
      TimesMono(1.0 - Eps(), 1.0, Least(n - 1));
      TimesMono(Least(n), Least(n - 1), v);
      TimesOne(Most(n - 1));
      TimesMono(1.0, 1.0 + Eps(), Most(n - 1));
      TimesMono(Most(n - 1), Most(n), v);
    }
  }

  lemma {:induction false} Positive(k: nat)
    ensures 0.0 <= Least(k) && 0.0 <= Most(k)
  {
    hide Times, Eps;
    if k > 0 {
      Positive(k - 1);
      EpsSmall();
      NonNeg(1.0 - Eps(), Least(k - 1));
      NonNeg(1.0 + Eps(), Most(k - 1));
    }
  }

  lemma {:induction false} NearSum(v: real, w: real, x: real, k: nat, n: nat)
    requires Near(v, w, k) && Near(w, x, n)
    ensures Near(v, x, k + n)
    decreases n
  {
    hide Times, Eps;
    LeastSum(k, n);
    Positive(n);
    TimesMono(Times(Least(k), v), w, Least(n));
    TimesMono(w, Times(Most(k), v), Most(n));
    TimesAssoc(Least(n), Least(k), v);
    TimesAssoc(Most(n), Most(k), v);
  }

  lemma {:induction false} LeastSum(k: nat, n: nat)
    ensures Least(k + n) == Times(Least(n), Least(k)) && Most(k + n) == Times(Most(n), Most(k))
  {
    hide Times, Eps;
    if n == 0 {
      TimesOne(Least(k));
      TimesOne(Most(k));
    } else {
      LeastSum(k, n - 1);
      TimesAssoc(1.0 - Eps(), Least(n - 1), Least(k));
      TimesAssoc(1.0 + Eps(), Most(n - 1), Most(k));
    }
  }

  /** In figures: `k` steps are a relative error of at most `2 * k * Eps`. */
  lemma NearWithin(v: real, w: real, k: nat)
    requires Near(v, w, k) && v >= 0.0 && k <= 1_000_000
    ensures Times(1.0 - 2.0 * k as real * Eps(), v) <= w <= Times(1.0 + 2.0 * k as real * Eps(), v)
  {
    hide Times, Eps, Least, Most;
    Figures(k);
    EpsSmall();
    TimesMono(1.0 - 2.0 * k as real * Eps(), Least(k), v);
    TimesMono(Most(k), 1.0 + 2.0 * k as real * Eps(), v);
  }

  lemma {:induction false} Figures(k: nat)
    requires k <= 1_000_000
    ensures 1.0 - 2.0 * k as real * Eps() <= Least(k) && Most(k) <= 1.0 + 2.0 * k as real * Eps()
  {
    hide Times, Eps;
    if k > 0 {
      Figures(k - 1);
      EpsSmall();
      var d := 2.0 * (k - 1) as real * Eps();
      FiguresSmall(k - 1, Eps());
      TimesMono(1.0 - d, Least(k - 1), 1.0 - Eps());
      TimesMono(Most(k - 1), 1.0 + d, 1.0 + Eps());
      StepFigures(d, Eps());
      assert 2.0 * k as real * Eps() == d + 2.0 * Eps();
    }
  }

  lemma FiguresSmall(k: nat, e: real)
    requires k <= 1_000_000 && 0.0 <= e <= 0.00000001
    ensures 0.0 <= 2.0 * k as real * e <= 1.0
  {
    Product(k as real, e);
    Product(1000000.0 - k as real, e);
  }

  lemma StepFigures(d: real, e: real)
    requires 0.0 <= d <= 1.0 && 0.0 <= e <= 1.0
    ensures Times(1.0 - e, 1.0 - d) >= 1.0 - (d + 2.0 * e) && Times(1.0 + e, 1.0 + d) <= 1.0 + (d + 2.0 * e)
  {
    TimesIs(1.0 - e, 1.0 - d);
    TimesIs(1.0 + e, 1.0 + d);
    NonNeg(e, d);
    NonNeg(e, 1.0 - d);
    TimesIs(e, d);
    TimesIs(e, 1.0 - d);
  }

  /** Two limbs at the end made one: the number is the same up to a step. */
  lemma FoldNear(p: seq<nat>, u: nat, v: nat, x: nat, rp: int, e2: int)
    requires |p| == PLACES + 1 && p[0] >= 1 && u <= x && x < 2 * BASE && v < 2 * BASE
    ensures OneStep(ValueOf(p + [u, v], rp, e2), ValueOf(p + [x], rp, e2))
  {
    hide Frac, Pow, Times, Eps;
    FoldFrac(p, u, v, x);
    StepScaled(Frac(p + [u, v]), Frac(p + [x]), Pow(10.0, rp));
    StepScaled(Times(Frac(p + [u, v]), Pow(10.0, rp)), Times(Frac(p + [x]), Pow(10.0, rp)), Pow(2.0, e2));
  }

  lemma StepScaled(v: real, w: real, p: real)
    requires OneStep(v, w) && p > 0.0
    ensures OneStep(Times(v, p), Times(w, p))
  {
    hide Times, Eps;
    TimesMono(Times(1.0 - Eps(), v), w, p);
    TimesMono(w, Times(1.0 + Eps(), v), p);
    TimesAssoc(1.0 - Eps(), v, p);
    TimesAssoc(1.0 + Eps(), v, p);
  }

  lemma FoldFrac(p: seq<nat>, u: nat, v: nat, x: nat)
    requires |p| == PLACES + 1 && p[0] >= 1 && u <= x && x < 2 * BASE && v < 2 * BASE
    ensures OneStep(Frac(p + [u, v]), Frac(p + [x]))
  {
    hide Pow, Times, Frac;
    assert p + [u, v] == (p + [u]) + [v];
    FracAppend(p, u);
    FracAppend(p, x);
    FracAppend(p + [u], v);
    var q := Pow(RBASE, -PLACES - 2);
    PowNext(RBASE, -PLACES - 3);
    PowNext(RBASE, -PLACES - 2);
    PowNext(RBASE, -PLACES - 1);
    TimesIs(RBASE, Pow(RBASE, -PLACES - 3));
    TimesIs(RBASE, q);
    TimesIs(RBASE, Pow(RBASE, -PLACES - 1));
    TimesIs(u as real, q);
    TimesIs(x as real, q);
    TimesIs(v as real, Pow(RBASE, -PLACES - 3));
    FracLead(p);
    FoldAmount(Frac(p), u as real, v as real, x as real, q, Pow(RBASE, -PLACES - 3));
    TimesIs(1.0 - Eps(), Frac(p + [u, v]));
    TimesIs(1.0 + Eps(), Frac(p + [u, v]));
  }

  lemma FracLead(p: seq<nat>)
    requires p != [] && p[0] >= 1
    ensures Frac(p) >= 0.000000001
  {
    FracNonNeg(p[1..]);
  }

  lemma {:induction false} FracNonNeg(p: seq<nat>)
    ensures Frac(p) >= 0.0
    decreases |p|
  {
    if p != [] { FracNonNeg(p[1..]); }
  }

  /** The arithmetic: `q` is a unit of the place of `u` and `x`, and the error is a few units. */
  lemma FoldAmount(f: real, u: real, v: real, x: real, q: real, r: real)
    requires f >= 0.000000001 && 0.0 <= u <= x < 2.0 * RBASE && 0.0 <= v < 2.0 * RBASE && q > 0.0 && q == RBASE * r
    requires Eps() == 10.0 * RBASE * RBASE * q
    ensures var g := f + u * q + v * r; g - Eps() * g <= f + x * q <= g + Eps() * g
  {
    var g := f + u * q + v * r;
    Between(0.0, u, q);
    Between(u, x, q);
    Between(x, 2.0 * RBASE, q);
    Between(0.0, v, r);
    Between(v, 2.0 * RBASE, r);
    Product(g - 0.000000001, Eps());
    EpsTimes(g, q);
    hide Eps;
    FoldLinear(f, u * q, v * r, x * q, q, r, Eps() * g);
  }

  lemma EpsTimes(g: real, q: real)
    requires g >= 0.000000001 && q > 0.0 && Eps() == 10.0 * RBASE * RBASE * q
    ensures Eps() * g >= 10.0 * RBASE * q
  {
    Between(0.000000001, g, Eps());
  }

  lemma FoldLinear(f: real, uq: real, vr: real, xq: real, q: real, r: real, eg: real)
    requires q == RBASE * r && q > 0.0 && 0.0 <= uq <= xq <= 2.0 * RBASE * q && 0.0 <= vr <= 2.0 * RBASE * r
    requires eg >= 10.0 * RBASE * q
    ensures f + uq + vr - eg <= f + xq <= f + uq + vr + eg
  {
  }

  lemma Between(a: real, b: real, q: real)
    requires a <= b && q >= 0.0
    ensures a * q <= b * q
  {
    Product(b - a, q);
    assert (b - a) * q == b * q - a * q;
  }

  lemma Product(a: real, b: real)
    requires a >= 0.0 && b >= 0.0
    ensures a * b >= 0.0
  {
  }
}
