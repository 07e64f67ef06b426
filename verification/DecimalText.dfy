/** From the characters of a decimal numeral to a scaled 64-bit significand. */
module DecimalText {
  import Bits
  import opened Chars
  import opened Closeness
  import opened DecFloat
  import opened Limbs
  import opened Rounding

  function DigitOf(c: char): (d: nat)
    requires IsDigit(c)
    ensures d <= 9
  {
    (c - '0') as nat
  }

  // ---------- what a numeral means ----------

  /** All digits of a numeral as one integer, the radix point ignored. */
  ghost function Mantissa(u: string): nat {
    if u == [] then 0
    else
      var init, c := u[..|u| - 1], u[|u| - 1];
      if IsDigit(c) then 10 * Mantissa(init) + DigitOf(c) else Mantissa(init)
  }

  /** How many digits stand behind the radix point. */
  ghost function Scale(u: string): nat {
    if u == [] then 0
    else
      var init, c := u[..|u| - 1], u[|u| - 1];
      if IsDigit(c) && '.' in init then Scale(init) + 1 else Scale(init)
  }

  /** How many digits there are from the first one other than 0 on. */
  ghost function Significant(u: string): nat {
    if u == [] then 0
    else
      var init, c := u[..|u| - 1], u[|u| - 1];
      if IsDigit(c) && (Mantissa(init) > 0 || c != '0') then Significant(init) + 1 else Significant(init)
  }

  ghost predicate HasDigit(u: string) { exists i | 0 <= i < |u| :: IsDigit(u[i]) }

  /** The number a numeral denotes. */
  ghost function DecimalValue(u: string): real { Times(Mantissa(u) as real, Pow(10.0, 0 - Scale(u))) }

  /** A numeral extended by one character. */
  lemma Extend(u: string, c: char)
    ensures Mantissa(u + [c]) == if IsDigit(c) then 10 * Mantissa(u) + DigitOf(c) else Mantissa(u)
    ensures Scale(u + [c]) == if IsDigit(c) && '.' in u then Scale(u) + 1 else Scale(u)
    ensures Significant(u + [c]) == Significant(u) + if IsDigit(c) && (Mantissa(u) > 0 || c != '0') then 1 else 0
    ensures '.' in u + [c] <==> '.' in u || c == '.'
    ensures HasDigit(u + [c]) <==> HasDigit(u) || IsDigit(c)
  {
    var w := u + [c];
    assert w[..|w| - 1] == u && w[|w| - 1] == c;
    if HasDigit(u) {
      var i :| 0 <= i < |u| && IsDigit(u[i]);
      assert IsDigit(w[i]);
    }
    if IsDigit(c) { assert IsDigit(w[|u|]); }
    if HasDigit(w) {
      var i :| 0 <= i < |w| && IsDigit(w[i]);
      if i < |u| { assert IsDigit(u[i]); }
    }
  }

  // ---------- limbs while digits arrive ----------

  /** The full limbs and the partial one, filled up with zeros. */
  function Padded(xs: seq<nat>, k: nat, j: nat): seq<nat>
    requires k < |xs| && j <= 8
  {
    if j == 0 then xs[..k] else xs[..k] + [xs[k] * TenPow(9 - j)]
  }

  lemma {:induction false} BasePow(k: nat)
    ensures Pow(RBASE, 0 - k) == Pow(10.0, -9 * k)
  {
    hide Pow, Times;
    if k == 0 {
      PowZero(RBASE);
      PowZero(10.0);
    } else {
      BasePow(k - 1);
      PowNext(RBASE, 0 - k);
      PowTen9(-9 * (k - 1));
      TimesIs(RBASE, Pow(RBASE, 0 - k));
      TimesIs(RBASE, Pow(10.0, -9 * k));
    }
  }

  /** The weight of a digit in place `j` of limb `k`. */
  lemma DigitWeight(k: nat, j: nat)
    requires j <= 8
    ensures Times(TenPow(8 - j) as real, Pow(RBASE, 0 - k - 1)) == Pow(10.0, -(9 * k + j + 1))
  {
    hide Pow, TenPow, Times;
    TenPowIs(8 - j);
    BasePow(k + 1);
    PowAdd(10.0, -9 * (k + 1), 8 - j);
    TimesSwap(Pow(10.0, 8 - j), Pow(10.0, -9 * (k + 1)));
    assert -9 * (k + 1) + (8 - j) == -(9 * k + j + 1);
    assert 0 - (k + 1) == 0 - k - 1;
  }

  /** Storing one more digit adds it in its decimal place. */
  lemma AddDigit(xs: seq<nat>, xs': seq<nat>, k: nat, j: nat, d: nat)
    requires k + 1 < |xs| == |xs'| && j <= 8
    requires xs' == xs[k := if j == 0 then d else xs[k] * 10 + d]
    ensures var p' := if j == 8 then Padded(xs', k + 1, 0) else Padded(xs', k, j + 1);
      Frac(p') == Frac(Padded(xs, k, j)) + Times(d as real, Pow(10.0, -(9 * k + j + 1)))
  {
    hide Pow, Frac, TenPow, Times;
    var part := if j == 0 then 0 else xs[k];
    var t := TenPow(8 - j);
    TenPowNext(8 - j);
    var y := part * (10 * t);
    var p' := if j == 8 then Padded(xs', k + 1, 0) else Padded(xs', k, j + 1);
    assert p' == xs[..k] + [y + d * t] by {
      assert (part * 10 + d) * t == y + d * t by { Spread(part, d, t); }
      assert xs'[..k + 1] == xs[..k] + [part * 10 + d];
      if j == 8 { TenPowZero(); }
    }
    assert Frac(Padded(xs, k, j)) == Frac(xs[..k] + [y]) by {
      if j == 0 { FracZeros(xs[..k]); }
    }
    FracAppend(xs[..k], y + d * t);
    FracAppend(xs[..k], y);
    DigitWeight(k, j);
    Weigh(y, d, t, Pow(RBASE, 0 - k - 1));
  }

  lemma Spread(part: nat, d: nat, t: nat)
    ensures (part * 10 + d) * t == part * (10 * t) + d * t
  {
  }

  lemma Weigh(y: nat, d: nat, t: nat, w: real)
    ensures Times((y + d * t) as real, w) == Times(y as real, w) + Times(d as real, Times(t as real, w))
  {
    assert (d * t) as real == Times(d as real, t as real);
    hide Times;
    TimesAdd(y as real, Times(d as real, t as real), w);
    TimesAssoc(d as real, t as real, w);
  }

  /** The digits so far, as an integer, once one more has been stored. */
  lemma NextMantissa(m: nat, f: real, f': real, dc: nat, d: nat)
    requires m as real == Times(f, Pow(10.0, dc))
    requires f' == f + Times(d as real, Pow(10.0, -(dc + 1)))
    ensures (10 * m + d) as real == Times(f', Pow(10.0, dc + 1))
  {
    hide Pow, Times;
    var q, r, s := Pow(10.0, -(dc + 1)), Pow(10.0, dc + 1), Pow(10.0, dc);
    PowAdd(10.0, -(dc + 1), dc + 1);
    PowZero(10.0);
    TimesAdd(f, Times(d as real, q), r);
    TimesAssoc(d as real, q, r);
    TimesOne(d as real);
    NextMantissaZero(m, f, dc);
  }

  /** A digit 0 that is not stored any more still counts as a place. */
  lemma NextMantissaZero(m: nat, f: real, dc: nat)
    requires m as real == Times(f, Pow(10.0, dc))
    ensures (10 * m) as real == Times(f, Pow(10.0, dc + 1))
  {
    hide Pow, Times;
    PowNext(10.0, dc);
    TimesMove(10.0, f, Pow(10.0, dc));
    TimesIs(10.0, Times(f, Pow(10.0, dc)));
  }

  // ---------- the digit loop ----------

  /** The digit buffer after `dc` digits: `k` full limbs and `j` digits of the next. */
  ghost predicate Layout(xs: seq<nat>, k: nat, j: nat, dc: nat) {
    && |xs| == KMAX && k <= KMAX - 3 && j <= 8 && (k == KMAX - 3 ==> j == 0)
    && 9 * k + j <= dc && (k < KMAX - 3 ==> dc == 9 * k + j)
    && (forall i | 0 <= i < k :: xs[i] < BASE) && (j > 0 ==> xs[k] < TenPow(j))
    && (dc == 0 ==> xs[0] == 0)
    && (dc > 0 ==> k + j > 0 && xs[0] >= 1 && xs[0] >= TenPow(if k > 0 then 8 else j - 1))
  }

  /** The buffer is the integer of the digits so far, shifted behind the radix point. */
  ghost predicate Exact(u: string, xs: seq<nat>, k: nat, j: nat, dc: nat)
    requires k < |xs| && j <= 8
  {
    Mantissa(u) as real == Times(Frac(Padded(xs, k, j)), Pow(10.0, dc))
  }

  /** With some digit left out, the last limb is odd and the buffer less than a unit of it off. */
  ghost predicate Rough(u: string, xs: seq<nat>, dc: nat)
    requires |xs| == KMAX && dc >= 9 * (KMAX - 3)
  {
    var n, t := Int(xs[..KMAX - 3]), TenPow(dc - 9 * (KMAX - 3));
    xs[KMAX - 4] % 2 == 1 && (n - 1) * t <= Mantissa(u) < (n + 1) * t
  }

  /** What the digit loop knows about the characters consumed so far. */
  ghost predicate Stored(u: string, xs: seq<nat>, k: nat, j: nat, dc: nat, truncated: bool) {
    && Layout(xs, k, j, dc) && (dc == 0 <==> Mantissa(u) == 0) && dc == Significant(u)
    && if truncated then k == KMAX - 3 && Rough(u, xs, dc) else Exact(u, xs, k, j, dc)
  }

  ghost predicate Placed(u: string, gotrad: bool, lrp: int, dc: nat) {
    && (gotrad <==> '.' in u)
    && if gotrad then dc - lrp == Scale(u) else Scale(u) == 0
  }

  lemma StoreDigit(u: string, c: char, xs: seq<nat>, xs': seq<nat>, k: nat, j: nat, dc: nat, truncated: bool)
    requires Stored(u, xs, k, j, dc, truncated) && k < KMAX - 3 && IsDigit(c)
    requires dc == 0 ==> c != '0'
    requires xs' == xs[k := if j == 0 then DigitOf(c) else xs[k] * 10 + DigitOf(c)]
    ensures Stored(u + [c], xs', if j == 8 then k + 1 else k, if j == 8 then 0 else j + 1, dc + 1, truncated)
  {
    hide Exact, Layout, Mantissa, Significant, Rough;
    StoreLayout(xs, xs', k, j, dc, DigitOf(c));
    Extend(u, c);
    if !truncated { StoreExact(u, c, xs, xs', k, j, dc); }
  }

  lemma StoreLayout(xs: seq<nat>, xs': seq<nat>, k: nat, j: nat, dc: nat, d: nat)
    requires Layout(xs, k, j, dc) && k < KMAX - 3 && d <= 9 && (dc == 0 ==> d != 0)
    requires xs' == xs[k := if j == 0 then d else xs[k] * 10 + d]
    ensures k + 1 < |xs| && j <= 8 && dc == 9 * k + j
    ensures Layout(xs', if j == 8 then k + 1 else k, if j == 8 then 0 else j + 1, dc + 1)
  {
    hide TenPow;
    TenPowNext(j);
    if j > 0 { TenPowNext(j - 1); }
    TenPowZero();
    TenPowNine();
  }

  lemma StoreExact(u: string, c: char, xs: seq<nat>, xs': seq<nat>, k: nat, j: nat, dc: nat)
    requires k + 1 < |xs| && j <= 8 && dc == 9 * k + j && Exact(u, xs, k, j, dc) && IsDigit(c)
    requires xs' == xs[k := if j == 0 then DigitOf(c) else xs[k] * 10 + DigitOf(c)]
    ensures Exact(u + [c], xs', if j == 8 then k + 1 else k, if j == 8 then 0 else j + 1, dc + 1)
  {
    hide Pow, Frac, Padded, Mantissa;
    Extend(u, c);
    AddDigit(xs, xs', k, j, DigitOf(c));
    var p' := if j == 8 then Padded(xs', k + 1, 0) else Padded(xs', k, j + 1);
    NextMantissa(Mantissa(u), Frac(Padded(xs, k, j)), Frac(p'), dc, DigitOf(c));
  }

  lemma DropDigit(u: string, c: char, xs: seq<nat>, dc: nat, truncated: bool)
    requires Stored(u, xs, KMAX - 3, 0, dc, truncated) && c == '0'
    ensures Stored(u + [c], xs, KMAX - 3, 0, dc + 1, truncated)
  {
    hide Exact, Mantissa, Rough;
    Extend(u, c);
    if truncated { RoughNext(u, c, xs, dc); } else { DropExact(u, c, xs, dc); }
  }

  lemma DropExact(u: string, c: char, xs: seq<nat>, dc: nat)
    requires KMAX - 3 < |xs| && Exact(u, xs, KMAX - 3, 0, dc) && c == '0'
    ensures Exact(u + [c], xs, KMAX - 3, 0, dc + 1)
  {
    hide Pow, Frac, Padded, Mantissa;
    Extend(u, c);
    NextMantissaZero(Mantissa(u), Frac(Padded(xs, KMAX - 3, 0)), dc);
  }

  /** A digit that is left out only makes the last limb odd. */
  lemma StickyDigit(u: string, c: char, xs: seq<nat>, xs': seq<nat>, dc: nat, truncated: bool)
    requires Stored(u, xs, KMAX - 3, 0, dc, truncated) && IsDigit(c)
    requires xs' == xs[KMAX - 4 := if xs[KMAX - 4] % 2 == 0 then xs[KMAX - 4] + 1 else xs[KMAX - 4]]
    ensures Stored(u + [c], xs', KMAX - 3, 0, dc + 1, true)
  {
    hide Exact, Mantissa, Rough;
    Extend(u, c);
    if truncated {
      RoughOdd(u, xs, dc);
      assert xs' == xs;
      RoughNext(u, c, xs, dc);
    } else {
      RoughFirst(u, c, xs, xs', dc);
    }
  }

  lemma RoughOdd(u: string, xs: seq<nat>, dc: nat)
    requires |xs| == KMAX && dc >= 9 * (KMAX - 3) && Rough(u, xs, dc)
    ensures xs[KMAX - 4] % 2 == 1
  {
  }

  lemma RoughNext(u: string, c: char, xs: seq<nat>, dc: nat)
    requires |xs| == KMAX && dc >= 9 * (KMAX - 3) && Rough(u, xs, dc) && IsDigit(c)
    ensures Rough(u + [c], xs, dc + 1)
  {
    hide Mantissa, Int, TenPow;
    Extend(u, c);
    var n: int, t := Int(xs[..KMAX - 3]), dc - 9 * (KMAX - 3);
    TenPowNext(t);
    TenTimes(n - 1, TenPow(t));
    TenTimes(n + 1, TenPow(t));
  }

  lemma TenTimes(n: int, t: nat)
    ensures n * (10 * t) == 10 * (n * t)
  {
  }

  lemma RoughFirst(u: string, c: char, xs: seq<nat>, xs': seq<nat>, dc: nat)
    requires |xs| == KMAX && dc >= 9 * (KMAX - 3) && Exact(u, xs, KMAX - 3, 0, dc) && IsDigit(c)
    requires xs' == xs[KMAX - 4 := if xs[KMAX - 4] % 2 == 0 then xs[KMAX - 4] + 1 else xs[KMAX - 4]]
    ensures Rough(u + [c], xs', dc + 1)
  {
    hide Mantissa, Int, TenPow, Exact;
    Extend(u, c);
    var n: int, t, m := Int(xs[..KMAX - 3]), dc - 9 * (KMAX - 3), TenPow(dc - 9 * (KMAX - 3));
    ExactInt(u, xs, dc);
    IntLast(xs, xs', KMAX - 3);
    TenPowNext(t);
    var n': int := Int(xs'[..KMAX - 3]);
    RoughDigit(n, n', m, Mantissa(u), DigitOf(c));
  }

  /** One digit after `n` units of `m` is within one of ten times as many units, or of one more. */
  lemma RoughDigit(n: int, n': int, m: nat, v: int, d: nat)
    requires v == n * m && d < 10 && m >= 1 && (n' == n || n' == n + 1)
    ensures (n' - 1) * (10 * m) <= 10 * v + d < (n' + 1) * (10 * m)
  {
    TenTimes(n, m);
    Stays(n' - 1, n, 10 * m);
    Stays(n + 1, n' + 1, 10 * m);
    assert (n + 1) * (10 * m) == n * (10 * m) + 10 * m;
  }

  lemma Stays(a: int, b: int, t: nat)
    requires a <= b
    ensures a * t <= b * t
  {
  }

  lemma IntLast(xs: seq<nat>, xs': seq<nat>, n: nat)
    requires 0 < n <= |xs| == |xs'| && xs'[..n - 1] == xs[..n - 1]
    ensures Int(xs'[..n]) + xs[n - 1] == Int(xs[..n]) + xs'[n - 1]
  {
    hide Int;
    IntNext(xs, n - 1);
    IntNext(xs', n - 1);
  }

  /** Limbs as an integer and as a fraction. */
  lemma IntFraction(l: seq<nat>)
    ensures Frac(l) == Times(Int(l) as real, Pow(10.0, -9 * |l|))
  {
    hide Frac, Pow, Times, Int;
    IntFrac(l);
    BasePow(|l|);
  }

  lemma ExactInt(u: string, xs: seq<nat>, dc: nat)
    requires |xs| == KMAX && dc >= 9 * (KMAX - 3) && Exact(u, xs, KMAX - 3, 0, dc)
    ensures Mantissa(u) == Int(xs[..KMAX - 3]) * TenPow(dc - 9 * (KMAX - 3))
  {
    hide Frac, Pow, Times, Mantissa, Int, TenPow;
    var n, t := Int(xs[..KMAX - 3]), dc - 9 * (KMAX - 3);
    IntFraction(xs[..KMAX - 3]);
    TimesAssoc(n as real, Pow(10.0, -9 * (KMAX - 3)), Pow(10.0, dc));
    PowSum(-9 * (KMAX - 3), dc);
    assert -9 * (KMAX - 3) + dc == t;
    TenPowIs(t);
    ProductReal(n, TenPow(t));
  }

  lemma StoredEmpty(xs: seq<nat>)
    requires |xs| == KMAX && xs[0] == 0
    ensures Stored([], xs, 0, 0, 0, false) && Placed([], false, 0, 0)
  {
  }

  /** While digits are still stored, the places agree; once they are not, no limb is partial. */
  lemma StoredPlace(u: string, xs: seq<nat>, k: nat, j: nat, dc: nat, truncated: bool)
    requires Stored(u, xs, k, j, dc, truncated)
    ensures k <= KMAX - 3 && j <= 8 && (k == KMAX - 3 ==> j == 0 && dc > 0) && 9 * k + j <= dc
    ensures k < KMAX - 3 ==> dc == 9 * k + j
  {
  }

  lemma StoredNothing(u: string, xs: seq<nat>, c: char, truncated: bool)
    requires Stored(u, xs, 0, 0, 0, truncated) && (c == '0' || c == '.')
    ensures Stored(u + [c], xs, 0, 0, 0, truncated)
  {
    Extend(u, c);
  }

  lemma StoredPoint(u: string, xs: seq<nat>, k: nat, j: nat, dc: nat, truncated: bool)
    requires Stored(u, xs, k, j, dc, truncated)
    ensures Stored(u + ['.'], xs, k, j, dc, truncated)
  {
    hide Pow, Frac, Padded;
    Extend(u, '.');
  }

  /** The characters consumed so far, and the flags and counters kept about them. */
  ghost predicate Reading(u: string, gotrad: bool, lrp: int, dc: nat, gotdig: bool) {
    && Placed(u, gotrad, lrp, dc) && (gotdig <==> HasDigit(u))
    && forall i | 0 <= i < |u| :: IsDigit(u[i]) || u[i] == '.'
  }

  lemma ReadingEmpty()
    ensures Reading([], false, 0, 0, false)
  {
  }

  /** A zero in front of the first other digit. */
  lemma ReadZero(u: string, gotrad: bool, lrp: int, gotdig: bool)
    requires Reading(u, gotrad, lrp, 0, gotdig)
    ensures Reading(u + ['0'], gotrad, if gotrad then lrp - 1 else lrp, 0, true)
  {
    Extend(u, '0');
  }

  lemma ReadPoint(u: string, lrp: int, dc: nat, gotdig: bool)
    requires Reading(u, false, lrp, dc, gotdig)
    ensures Reading(u + ['.'], true, dc, dc, gotdig)
  {
    Extend(u, '.');
  }

  lemma ReadDigit(u: string, c: char, gotrad: bool, lrp: int, dc: nat, gotdig: bool)
    requires Reading(u, gotrad, lrp, dc, gotdig) && IsDigit(c)
    ensures Reading(u + [c], gotrad, lrp, dc + 1, true)
  {
    Extend(u, c);
  }

  lemma SliceNext(t: string, pos: nat, p: nat)
    requires pos <= p < |t|
    ensures t[pos..p + 1] == t[pos..p] + [t[p]]
  {
  }

  /** The numeral starts at `pos` and ends before `end`. */
  ghost predicate NumeralAt(t: string, pos: nat, end: nat) {
    && pos <= end <= |t|
    && (forall i | pos <= i < end :: IsDigit(t[i]) || t[i] == '.')
    && (end == |t| || !(IsDigit(t[end]) || (t[end] == '.' && '.' !in t[pos..end])))
  }

  lemma ReadingEnds(t: string, pos: nat, end: nat, gotrad: bool, lrp: int, dc: nat, gotdig: bool)
    requires pos <= end <= |t| && Reading(t[pos..end], gotrad, lrp, dc, gotdig)
    requires end == |t| || !(IsDigit(t[end]) || (t[end] == '.' && !gotrad))
    ensures NumeralAt(t, pos, end) && (gotdig <==> HasDigit(t[pos..end]))
    ensures dc - (if gotrad then lrp else dc) == Scale(t[pos..end])
  {
    var u := t[pos..end];
    assert forall i | pos <= i < end :: t[i] == u[i - pos];
  }

  /** Up to eight digits other than 0, as counted by the place `lnz` of the last one, fill the first limb only. */
  ghost predicate Short(xs: seq<nat>, k: nat, j: nat, lnz: nat, truncated: bool) {
    lnz < 9 ==> !truncated && forall i | 1 <= i < (if j > 0 then k + 1 else k) && i < |xs| :: xs[i] == 0
  }

  lemma ShortNext(xs: seq<nat>, k: nat, j: nat, dc: nat, lnz: nat, d: nat, truncated: bool)
    requires Short(xs, k, j, lnz, truncated) && lnz <= dc && k < |xs| && j <= 8 && dc == 9 * k + j
    ensures var v := if j == 0 then d else xs[k] * 10 + d;
      var (k', j') := if j == 8 then (k + 1, 0) else (k, j + 1);
      Short(xs[k := v], k', j', if d != 0 then dc + 1 else lnz, truncated)
  {
  }

  lemma ShortLong(xs: seq<nat>, k: nat, j: nat, lnz: nat)
    requires lnz >= 9
    ensures Short(xs, k, j, lnz, true)
  {
  }

  /** Stores one digit, or once the buffer is full only notes whether it was 0. */
  method StoreNext(c: char, s: Scaler, k: nat, j: nat, dc: nat, lnz: nat, ghost u: string)
    returns (k': nat, j': nat, lnz': nat)
    requires IsDigit(c) && s.x.Length == KMAX && (dc == 0 ==> c != '0')
    requires Stored(u, s.x[..], k, j, dc, s.truncated) && Short(s.x[..], k, j, lnz, s.truncated)
    requires lnz <= dc && (dc > 0 ==> lnz > 0)
    modifies s`truncated, s.x
    ensures Stored(u + [c], s.x[..], k', j', dc + 1, s.truncated) && Short(s.x[..], k', j', lnz', s.truncated)
    ensures 0 < lnz' <= dc + 1
    ensures dc < 9 * (KMAX - 3) ==> s.truncated == old(s.truncated)
  {
    hide Stored, Mantissa, Scale, Short;
    StoredPlace(u, s.x[..], k, j, dc, s.truncated);
    k', j', lnz' := k, j, lnz;
    if k < KMAX - 3 {
      ShortNext(s.x[..], k, j, dc, lnz, DigitOf(c), s.truncated);
      if c != '0' {
        lnz' := dc + 1;
      }
      ghost var v := if j == 0 then DigitOf(c) else s.x[k] * 10 + DigitOf(c);
      StoreDigit(u, c, s.x[..], s.x[..][k := v], k, j, dc, s.truncated);
      if j != 0 {
        s.x[k] := s.x[k] * 10 + DigitOf(c);
      } else {
        s.x[k] := DigitOf(c);
      }
      j' := j + 1;
      if j' == 9 {
        k' := k + 1;
        j' := 0;
      }
    } else if c != '0' {
      var low := s.x[KMAX - 4];
      StickyDigit(u, c, s.x[..], s.x[..][KMAX - 4 := if low % 2 == 0 then low + 1 else low], dc, s.truncated);
      s.x[KMAX - 4] := if low % 2 == 0 then low + 1 else low;
      s.truncated := true;
      lnz' := (KMAX - 4) * 9;
      ShortLong(s.x[..], k, j, lnz');
    } else {
      DropDigit(u, c, s.x[..], dc, s.truncated);
    }
  }

  /** Skips zeros that must not take up room in the buffer. */
  method SkipZeros(t: string, pos: nat, start: nat, gotrad: bool, lrp: int, gotdig: bool, ghost xs: seq<nat>)
    returns (p: nat, lrp': int, gotdig': bool)
    requires pos <= start <= |t| && Reading(t[pos..start], gotrad, lrp, 0, gotdig)
    requires Stored(t[pos..start], xs, 0, 0, 0, false)
    ensures start <= p <= |t| && Reading(t[pos..p], gotrad, lrp', 0, gotdig')
    ensures Stored(t[pos..p], xs, 0, 0, 0, false) && (p < |t| ==> t[p] != '0')
  {
    hide Stored, Reading;
    p, lrp', gotdig' := start, lrp, gotdig;
    while p < |t| && t[p] == '0'
      invariant start <= p <= |t| && Reading(t[pos..p], gotrad, lrp', 0, gotdig')
      invariant Stored(t[pos..p], xs, 0, 0, 0, false)
    {
      SliceNext(t, pos, p);
      StoredNothing(t[pos..p], xs, '0', false);
      ReadZero(t[pos..p], gotrad, lrp', gotdig');
      gotdig' := true;
      if gotrad {
        lrp' := lrp' - 1;
      }
      p := p + 1;
    }
  }

  /** Reads the digits and the radix point of a numeral into limbs. */
  method ReadDigits(t: string, pos: nat, s: Scaler)
    returns (end: nat, k: nat, j: nat, lrp: int, dc: nat, lnz: nat, gotdig: bool)
    requires pos <= |t| && s.x.Length == KMAX && !s.truncated
    modifies s`truncated, s.x
    ensures NumeralAt(t, pos, end) && (gotdig <==> HasDigit(t[pos..end]))
    ensures Stored(t[pos..end], s.x[..], k, j, dc, s.truncated)
    ensures dc - lrp == Scale(t[pos..end])
    ensures dc <= end - pos && (dc <= 9 * (KMAX - 3) ==> !s.truncated) && Short(s.x[..], k, j, lnz, s.truncated)
    ensures dc > 0 ==> lnz > 0
  {
    hide Stored, Reading, NumeralAt, HasDigit;
    var p := pos;
    k, j, lrp, dc, lnz, gotdig := 0, 0, 0, 0, 0, false;
    var gotrad := false;
    s.x[0] := 0;
    StoredEmpty(s.x[..]);
    ReadingEmpty();
    assert t[pos..p] == [];
    p, lrp, gotdig := SkipZeros(t, pos, p, gotrad, lrp, gotdig, s.x[..]);
    if p < |t| && t[p] == '.' {
      assert t[pos..p + 1] == t[pos..p] + [t[p]];
      StoredNothing(t[pos..p], s.x[..], '.', false);
      ReadPoint(t[pos..p], lrp, dc, gotdig);
      gotrad := true;
      lrp := 0;
      p, lrp, gotdig := SkipZeros(t, pos, p + 1, gotrad, lrp, gotdig, s.x[..]);
    }
    while p < |t| && (IsDigit(t[p]) || t[p] == '.')
      invariant pos <= p <= |t| && Reading(t[pos..p], gotrad, lrp, dc, gotdig)
      invariant Stored(t[pos..p], s.x[..], k, j, dc, s.truncated)
      invariant dc == 0 && p < |t| ==> t[p] != '0' && (t[p] == '.' ==> gotrad)
      invariant dc <= p - pos && (dc <= 9 * (KMAX - 3) ==> !s.truncated) && Short(s.x[..], k, j, lnz, s.truncated)
      invariant lnz <= dc && (dc > 0 ==> lnz > 0)
    {
      ghost var u := t[pos..p];
      SliceNext(t, pos, p);
      if t[p] == '.' {
        if gotrad {
          break;
        }
        StoredPoint(u, s.x[..], k, j, dc, s.truncated);
        ReadPoint(u, lrp, dc, gotdig);
        gotrad := true;
        lrp := dc;
      } else {
        ReadDigit(u, t[p], gotrad, lrp, dc, gotdig);
        k, j, lnz := StoreNext(t[p], s, k, j, dc, lnz, u);
        dc := dc + 1;
        gotdig := true;
      }
      p := p + 1;
    }
    end := p;
    ReadingEnds(t, pos, end, gotrad, lrp, dc, gotdig);
    if !gotrad {
      lrp := dc;
    }
  }

  // ---------- the exponent ----------

  const INT_MAX := 0x7FFF_FFFF
  const LLONG_MAX := 0x7FFF_FFFF_FFFF_FFFF

  datatype Exponent = NoExponent | Exponent(value: int)

  predicate HasSign(t: string, pos: nat) { pos < |t| && (t[pos] == '+' || t[pos] == '-') }

  predicate DigitAt(t: string, pos: nat) { pos < |t| && IsDigit(t[pos]) }

  /** Reads an optional sign and digits.  The value is exact, or the true one is at least as
      large as the huge one returned. */
  method ScanExp(t: string, pos: nat) returns (e: Exponent, end: nat)
    requires pos <= |t|
    ensures var first := if HasSign(t, pos) then pos + 1 else pos;
      && (e.NoExponent? <==> !DigitAt(t, first))
      && (e.NoExponent? ==> end == first)
      && (e.Exponent? ==> first < end <= |t| && !DigitAt(t, end) && (forall i | first <= i < end :: IsDigit(t[i])))
      && (e.Exponent? ==>
            var y := if HasSign(t, pos) && t[pos] == '-' then -e.value else e.value;
            y == Mantissa(t[first..end]) || LLONG_MAX / 100 <= y <= Mantissa(t[first..end]))
  {
    hide Mantissa;
    var p := pos;
    var neg := false;
    if HasSign(t, p) {
      neg := t[p] == '-';
      p := p + 1;
    }
    if !DigitAt(t, p) {
      return NoExponent, p;
    }
    ghost var first := p;
    assert t[first..p] == [];
    MantissaEmpty();
    var y: int;
    y, p := MoreDigits(t, first, p, 0, INT_MAX / 10);
    y, p := MoreDigits(t, first, p, y, LLONG_MAX / 100);
    p := PassDigits(t, first, p, y);
    return Exponent(if neg then -y else y), p;
  }

  /** The digits that do not count any more. */
  method PassDigits(t: string, ghost first: nat, start: nat, ghost y: nat) returns (p: nat)
    requires first < start <= |t| && (forall i | first <= i < start :: IsDigit(t[i]))
    requires y == Mantissa(t[first..start]) && (y < LLONG_MAX / 100 ==> !DigitAt(t, start))
    ensures start <= p <= |t| && !DigitAt(t, p) && (forall i | first <= i < p :: IsDigit(t[i]))
    ensures y == Mantissa(t[first..p]) || LLONG_MAX / 100 <= y <= Mantissa(t[first..p])
  {
    hide Mantissa;
    p := start;
    while DigitAt(t, p)
      invariant start <= p <= |t| && forall i | first <= i < p :: IsDigit(t[i])
      invariant y == Mantissa(t[first..p]) || LLONG_MAX / 100 <= y <= Mantissa(t[first..p])
      invariant y < LLONG_MAX / 100 ==> !DigitAt(t, p)
      decreases |t| - p
    {
      assert t[first..p + 1] == t[first..p] + [t[p]];
      Extend(t[first..p], t[p]);
      p := p + 1;
    }
  }

  /** Accumulates digits while the value is below `max`. */
  method MoreDigits(t: string, ghost first: nat, start: nat, y0: nat, max: nat) returns (y: nat, p: nat)
    requires first <= start <= |t| && (forall i | first <= i < start :: IsDigit(t[i])) &&
      y0 == Mantissa(t[first..start])
    ensures start <= p <= |t| && (forall i | first <= i < p :: IsDigit(t[i])) && y == Mantissa(t[first..p])
    ensures DigitAt(t, p) ==> y >= max
    ensures DigitAt(t, start) && y0 < max ==> p > start
  {
    hide Mantissa;
    y, p := y0, start;
    while DigitAt(t, p) && y < max
      invariant start <= p <= |t| && (forall i | first <= i < p :: IsDigit(t[i])) && y == Mantissa(t[first..p])
      invariant p == start ==> y == y0
      decreases |t| - p
    {
      assert t[first..p + 1] == t[first..p] + [t[p]];
      Extend(t[first..p], t[p]);
      y := 10 * y + DigitOf(t[p]);
      p := p + 1;
    }
  }

  lemma MantissaEmpty()
    ensures Mantissa([]) == 0
  {
  }

  // ---------- the whole reader ----------

  /** `Small` numbers are an integer below 10^9 and a power of ten, and are scaled in floating point. */
  datatype Scan =
    | NoDigits | BadExponent | Zero | Overflow | Underflow
    | Small(n: nat, tens: int)
    | Scaled(significand: nat, e2: int)

  /** Moves the digits of an incomplete last limb up to its full nine places. */
  method FillLast(s: Scaler, k: nat, j: nat) returns (z: nat)
    requires s.x.Length == KMAX && k <= KMAX - 3 && j <= 8
    modifies s.x
    ensures z == (if j == 0 then k else k + 1) && s.x[..z] == Padded(old(s.x[..]), k, j)
  {
    hide TenPow;
    z := k;
    if j > 0 {
      var i := j;
      ghost var v := s.x[k];
      TenPowZero();
      assert v * TenPow(0) == v;
      while i < 9
        invariant j <= i <= 9 && s.x[k] == v * TenPow(i - j)
        invariant s.x[..k] == old(s.x[..k])
      {
        TenPowNext(i - j);
        assert v * TenPow(i - j) * 10 == v * TenPow(i + 1 - j);
        s.x[k] := s.x[k] * 10;
        i := i + 1;
      }
      z := k + 1;
      assert s.x[..z] == s.x[..k] + [s.x[k]];
    }
  }

  /** The number left after the top three limbs, below the binary point. */
  ghost function Rest(l: seq<int>): real
    requires forall i | 0 <= i < |l| :: l[i] >= 0
  {
    Frac(l) * RBASE * RBASE * RBASE - Top(l) as real
  }

  lemma TopRest(l: seq<nat>, e2: int)
    ensures ValueOf(l, POINT, e2) == Times(Top(l) as real + Rest(l), Pow(2.0, e2)) && Rest(l) >= 0.0
  {
    hide Frac, Top, Times, Pow;
    RestNonNeg(l);
    var f := Frac(l);
    PowTen9(27);
    PowTen9(18);
    PowTen9(9);
    PowZero(10.0);
    TimesOne(RBASE);
    TimesIs(RBASE, RBASE);
    TimesIs(RBASE, RBASE * RBASE);
    TimesIs(f, RBASE * RBASE * RBASE);
  }

  lemma RestNonNeg(l: seq<nat>)
    ensures Frac(l) * RBASE * RBASE * RBASE >= Top(l) as real
  {
    if |l| > 0 {
      FracNonNeg(l[1..]);
      if |l| > 1 {
        assert l[1..][1..] == l[2..];
        FracNonNeg(l[2..]);
        if |l| > 2 {
          assert l[2..][1..] == l[3..];
          FracNonNeg(l[3..]);
        }
      }
    }
  }

  lemma Assembled(l: seq<nat>, e2: int)
    requires Bounded(l, BASE)
    ensures ValueOf(l, POINT, e2) == Times(Top(l) as real + Rest(l), Pow(2.0, e2))
    ensures 0.0 <= Rest(l) <= RBASE / (RBASE - 1.0)
  {
    hide Frac, Top, Times, Pow;
    TopRest(l, e2);
    TopFrac(l);
  }

  /** Value of the limbs that the digit loop leaves, after padding. */
  lemma PaddedValue(u: string, xs: seq<nat>, k: nat, j: nat, dc: nat, lrp: int, e10: int)
    requires Stored(u, xs, k, j, dc, false) && dc - lrp == Scale(u)
    ensures ValueOf(Padded(xs, k, j), lrp + e10, 0) == Times(DecimalValue(u), Pow(10.0, e10))
  {
    hide Frac, Padded, Pow, Mantissa, TenPow, Times;
    var f := Frac(Padded(xs, k, j));
    PowZero(2.0);
    PowSum(lrp, e10);
    PowSum(dc, lrp - dc);
    TimesAssoc(f, Pow(10.0, dc), Pow(10.0, lrp - dc));
    TimesAssoc(f, Pow(10.0, lrp), Pow(10.0, e10));
    TimesOne(Times(f, Pow(10.0, lrp + e10)));
  }

  /** The limbs are fit for scaling once a digit other than 0 has been read. */
  lemma PaddedGood(xs: seq<nat>, k: nat, j: nat, dc: nat)
    requires Layout(xs, k, j, dc) && dc > 0
    ensures var l := Padded(xs, k, j); l != [] && l[0] >= 1 && Bounded(l, BASE) && |l| <= KMAX - 3
  {
    LastLimb(xs, k, j, dc);
  }

  lemma {:induction false} TenPowSplit(m: nat, n: nat)
    ensures TenPow(m + n) == TenPow(m) * TenPow(n)
  {
    if n == 0 {
      TenPowZero();
    } else {
      TenPowSplit(m, n - 1);
      TenPowNext(m + n - 1);
      TenPowNext(n - 1);
    }
  }

  /** The decimal exponent written after `end`, if the reader takes one. */
  predicate ExponentAt(t: string, end: nat) { end < |t| && (t[end] == 'e' || t[end] == 'E') }

  /** `value` is the exponent written at `end`, 0 if there is none, or too large to count. */
  ghost predicate ExponentIs(t: string, end: nat, value: int) {
    if !ExponentAt(t, end) || !DigitAt(t, ExponentStart(t, end)) then value == 0
    else exists stop :: IsExponent(t, ExponentStart(t, end), stop, Unsigned(t, end, value))
  }

  ghost predicate IsExponent(t: string, first: nat, stop: int, y: int) {
    && first < stop <= |t| && !DigitAt(t, stop) && (forall i | first <= i < stop :: IsDigit(t[i]))
    && (y == Mantissa(t[first..stop]) || LLONG_MAX / 100 <= y <= Mantissa(t[first..stop]))
  }

  /** Where the exponent's digits start, and its value with the sign taken off. */
  function ExponentStart(t: string, end: nat): nat { if HasSign(t, end + 1) then end + 2 else end + 1 }

  function Unsigned(t: string, end: nat, value: int): int {
    if HasSign(t, end + 1) && t[end + 1] == '-' then -value else value
  }

  lemma ScannedIs(t: string, end: nat, stop: nat, e: Exponent)
    requires ExponentAt(t, end) && (e.NoExponent? <==> !DigitAt(t, ExponentStart(t, end)))
    requires e.Exponent? ==> IsExponent(t, ExponentStart(t, end), stop, Unsigned(t, end, e.value))
    ensures ExponentIs(t, end, if e.NoExponent? then 0 else e.value)
  {
  }

  lemma LastLimb(xs: seq<nat>, k: nat, j: nat, dc: nat)
    requires Layout(xs, k, j, dc) && dc > 0
    ensures var l := Padded(xs, k, j); l != [] && Bounded(l, BASE - 1) && l[0] >= 1_0000_0000
  {
    hide TenPow;
    TenPowNine();
    TenPowEight();
    if j > 0 {
      TenPowSplit(j, 9 - j);
      MulBelow(xs[k], TenPow(j), TenPow(9 - j));
      if k == 0 {
        TenPowSplit(j - 1, 9 - j);
        MulBelow(TenPow(j - 1), xs[k] + 1, TenPow(9 - j));
      }
    }
  }

  lemma MulBelow(v: nat, a: nat, b: nat)
    requires v < a
    ensures v * b + b <= a * b
  {
    assert a * b == (a - v - 1) * b + (v * b + b);
    assert (a - v - 1) * b >= 0;
  }

  lemma TenPowEight()
    ensures TenPow(8) == 1_0000_0000
  {
    assert TenPow(4) == 10000;
  }

  /** The first significant digit is not 0. */
  lemma {:induction false} SignificantRange(u: string)
    ensures if Mantissa(u) == 0 then Significant(u) == 0
            else Significant(u) > 0 && TenPow(Significant(u) - 1) <= Mantissa(u) < TenPow(Significant(u))
  {
    hide TenPow;
    if u != [] {
      var init, c := u[..|u| - 1], u[|u| - 1];
      assert u == init + [c];
      SignificantRange(init);
      Extend(init, c);
      TenPowNext(Significant(init));
      if Mantissa(init) > 0 { TenPowNext(Significant(init) - 1); } else { TenPowZero(); }
    }
  }

  /** The number lies within the decade that its point and its digits say. */
  lemma DecimalRange(u: string, e10: int)
    requires Mantissa(u) > 0
    ensures Pow(10.0, PointAt(u, e10) - 1) <= Times(DecimalValue(u), Pow(10.0, e10)) < Pow(10.0, PointAt(u, e10))
  {
    hide TenPow, Pow, Times, Mantissa, Significant, Scale;
    SignificantRange(u);
    var d, m := Significant(u), Mantissa(u) as real;
    var w := Pow(10.0, e10 - Scale(u));
    PowSum(0 - Scale(u), e10);
    assert 0 - Scale(u) + e10 == e10 - Scale(u);
    TimesAssoc(m, Pow(10.0, 0 - Scale(u)), Pow(10.0, e10));
    TenPowIs(d);
    TenPowIs(d - 1);
    PowSum(d, e10 - Scale(u));
    PowSum(d - 1, e10 - Scale(u));
    TimesMono(Pow(10.0, d - 1), m, w);
    TimesBelow(m, Pow(10.0, d), w);
    assert d + (e10 - Scale(u)) == PointAt(u, e10) && d - 1 + (e10 - Scale(u)) == PointAt(u, e10) - 1;
  }

  lemma TimesBelow(a: real, b: real, w: real)
    requires a < b && w > 0.0
    ensures Times(a, w) < Times(b, w)
  {
    assert Times(b, w) - Times(a, w) == Times(b - a, w) by {
      TimesAdd(b - a, a, w);
    }
    assert (b - a) * w > 0.0;
  }

  /** The padded limbs stand for the number, up to a step if digits have been left out. */
  lemma PaddedNear(u: string, xs: seq<nat>, k: nat, j: nat, dc: nat, lrp: int, e10: int, truncated: bool)
    requires Stored(u, xs, k, j, dc, truncated) && dc > 0 && dc - lrp == Scale(u)
    ensures OneStep(Times(DecimalValue(u), Pow(10.0, e10)), ValueOf(Padded(xs, k, j), lrp + e10, 0))
    ensures Times(DecimalValue(u), Pow(10.0, e10)) >= 0.0
  {
    StoredZero(u, xs, k, j, dc, truncated);
    assert truncated ==> k == KMAX - 3 && j == 0 && Rough(u, xs, dc);
    hide Stored, Rough, Frac, Pow, Times, Mantissa, Scale, OneStep, ValueOf, Padded, Significant, DecimalValue;
    DecimalRange(u, e10);
    if truncated {
      RoughPadded(u, xs, dc, lrp, e10);
    } else {
      PaddedValue(u, xs, k, j, dc, lrp, e10);
      NearSame(Times(DecimalValue(u), Pow(10.0, e10)));
    }
  }

  lemma RoughPadded(u: string, xs: seq<nat>, dc: nat, lrp: int, e10: int)
    requires |xs| == KMAX && dc >= 9 * (KMAX - 3) && Rough(u, xs, dc) && Mantissa(u) > 0 && dc == Significant(u)
    requires dc - lrp == Scale(u)
    ensures OneStep(Times(DecimalValue(u), Pow(10.0, e10)), ValueOf(Padded(xs, KMAX - 3, 0), lrp + e10, 0))
  {
    hide Rough, Frac, Pow, Times, Mantissa, Scale, OneStep, Significant;
    var f, m := Frac(xs[..KMAX - 3]), Mantissa(u) as real;
    RoughNear(u, xs, dc);
    StepScaled(Times(m, Pow(10.0, 0 - dc)), f, Pow(10.0, lrp + e10));
    TimesAssoc(m, Pow(10.0, 0 - dc), Pow(10.0, lrp + e10));
    TimesAssoc(m, Pow(10.0, 0 - Scale(u)), Pow(10.0, e10));
    PowSum(0 - dc, lrp + e10);
    PowSum(0 - Scale(u), e10);
    assert 0 - dc + (lrp + e10) == 0 - Scale(u) + e10;
    PowZero(2.0);
    TimesOne(Times(f, Pow(10.0, lrp + e10)));
  }

  lemma RoughNear(u: string, xs: seq<nat>, dc: nat)
    requires |xs| == KMAX && dc >= 9 * (KMAX - 3) && Rough(u, xs, dc) && Mantissa(u) > 0 && dc == Significant(u)
    ensures OneStep(Times(Mantissa(u) as real, Pow(10.0, 0 - dc)), Frac(xs[..KMAX - 3]))
  {
    var n, t, m := Int(xs[..KMAX - 3]), dc - 9 * (KMAX - 3), Mantissa(u);
    var unit, w := Pow(10.0, -9 * (KMAX - 3)), Pow(10.0, 0 - dc);
    RoughUnits(n, TenPow(t), m, w, Times(TenPow(t) as real, w));
    hide Int, Frac, Pow, Times, Mantissa, Significant, TenPow, Rough, OneStep, Eps;
    IntFraction(xs[..KMAX - 3]);
    TenPowIs(t);
    PowSum(t, 0 - dc);
    assert t + (0 - dc) == -9 * (KMAX - 3);
    OnePlace(u, dc);
    EpsUnit();
    WithinUnit(Times(m as real, w), Times(n as real, unit), unit);
  }

  lemma RoughUnits(n: int, t: nat, m: nat, w: real, unit: real)
    requires (n - 1) * t <= m <= (n + 1) * t && w > 0.0 && unit == Times(t as real, w)
    ensures Times(n as real, unit) - unit <= Times(m as real, w) <= Times(n as real, unit) + unit
  {
    hide Times;
    UnitsOf(n - 1, t, m, w, unit);
    UnitsOf(n + 1, t, m, w, unit);
    TimesIs(n as real, unit);
    assert (n - 1) as real * unit == n as real * unit - unit && (n + 1) as real * unit == n as real * unit + unit;
  }

  lemma EpsUnit()
    ensures Eps() == 10.0 * Pow(10.0, -9 * (KMAX - 3))
  {
    hide Pow;
    BasePow(KMAX - 3);
  }

  /** All digits behind the point, the first one not 0. */
  lemma OnePlace(u: string, dc: nat)
    requires Mantissa(u) > 0 && dc == Significant(u)
    ensures Times(Mantissa(u) as real, Pow(10.0, 0 - dc)) >= 0.1
  {
    hide Pow, Times, Mantissa, Significant, TenPow;
    SignificantRange(u);
    TenPowIs(dc - 1);
    PowSum(dc - 1, 0 - dc);
    assert dc - 1 + (0 - dc) == -1;
    PowNext(10.0, -1);
    PowZero(10.0);
    TimesIs(10.0, Pow(10.0, -1));
    TimesMono(TenPow(dc - 1) as real, Mantissa(u) as real, Pow(10.0, 0 - dc));
  }

  lemma UnitsOf(n: int, t: nat, m: nat, w: real, unit: real)
    requires w > 0.0 && unit == Times(t as real, w)
    ensures n * t <= m ==> n as real * unit <= Times(m as real, w)
    ensures m <= n * t ==> Times(m as real, w) <= n as real * unit
  {
    hide Times;
    TimesIs(n as real, t as real);
    assert (n * t) as real == Times(n as real, t as real);
    TimesAssoc(n as real, t as real, w);
    TimesIs(n as real, unit);
    assert Times((n * t) as real, w) == n as real * unit;
    if n * t <= m { TimesMono((n * t) as real, m as real, w); }
    if m <= n * t { TimesMono(m as real, (n * t) as real, w); }
  }

  lemma WithinUnit(v: real, f: real, unit: real)
    requires f - unit <= v <= f + unit && v >= 0.1 && unit > 0.0 && Eps() == 10.0 * unit
    ensures OneStep(v, f)
  {
    hide Eps;
    Between(0.1, v, Eps());
    TimesIs(1.0 - Eps(), v);
    TimesIs(1.0 + Eps(), v);
  }

  /** gob_decfloat up to the point where the significand becomes a floating-point number. */
  method ReadFloat(t: string, pos: nat, bits: nat, emin: int, pok: bool, s: Scaler)
    returns (r: Scan, ghost end: nat, ghost e10: int)
    requires pos <= |t| && emin < 0 && s.x.Length == KMAX && !s.truncated
    modifies s, s.x
    ensures NumeralAt(t, pos, end)
    ensures r.NoDigits? <==> !HasDigit(t[pos..end])
    ensures r.BadExponent? <==>
      HasDigit(t[pos..end]) && ExponentAt(t, end) && !DigitAt(t, ExponentStart(t, end)) && !pok
    ensures r.Zero? <==> !r.NoDigits? && !r.BadExponent? && Mantissa(t[pos..end]) == 0
    ensures !r.NoDigits? && !r.BadExponent? ==> ExponentIs(t, end, e10)
    ensures Roomy(end - pos, emin) ==> !s.truncated
    ensures RoomFor(Significant(t[pos..end]) / 9 + 1, PointAt(t[pos..end], e10)) ==> !s.truncated
    ensures r.Overflow? ==> PointAt(t[pos..end], e10) > -emin / 2
    ensures r.Underflow? ==> PointAt(t[pos..end], e10) < emin - 2 * LDBL_MANT_DIG
    ensures r.Scaled? ==> emin - 2 * LDBL_MANT_DIG <= PointAt(t[pos..end], e10) <= -emin / 2
    ensures r.Overflow? ==> Times(DecimalValue(t[pos..end]), Pow(10.0, e10)) >= Pow(10.0, -emin / 2)
    ensures r.Underflow? ==> Times(DecimalValue(t[pos..end]), Pow(10.0, e10)) <= Pow(10.0, emin - 2 * LDBL_MANT_DIG)
    ensures r.Small? ==>
      && r.n < BASE && -9 < r.tens < 9 && !s.truncated
      && Times(DecimalValue(t[pos..end]), Pow(10.0, e10)) == Times(r.n as real, Pow(10.0, r.tens))
    ensures r.Small? && r.tens > 0 && bits >= 24 ==> r.n * TenPow(r.tens) < Bits.Pow2(bits + r.tens)
    ensures r.Scaled? ==>
      && s.Good() && s.rp == POINT && r.significand == Top(s.Limbs()) && r.e2 == s.e2
      && r.significand >= 0x8000_0000_0000_0000 && Rest(s.Limbs()) >= 0.0
      && Near(Times(DecimalValue(t[pos..end]), Pow(10.0, e10)),
              Times(r.significand as real + Rest(s.Limbs()), Pow(2.0, r.e2)), Steps(PointAt(t[pos..end], e10)))
    ensures r.Scaled? && !s.truncated ==>
      && r.significand < 0x1_0000_0000_0000_0000
      && 0.0 <= Rest(s.Limbs()) <= RBASE / (RBASE - 1.0)
      && Times(DecimalValue(t[pos..end]), Pow(10.0, e10)) ==
        Times(r.significand as real + Rest(s.Limbs()), Pow(2.0, r.e2))
  {
    hide Stored, NumeralAt, HasDigit, Mantissa, Scale, Significant, Pow, Frac, Top, Padded, ValueOf, Layout, Rest;
    hide DecimalValue, ExponentIs, Times, Near, OneStep, Steps, Roomy, RoomFor, PointAt, Scaler.Good, Ring;
    e10 := 0;
    var p, k, j, lrp, dc, lnz, gotdig := ReadDigits(t, pos, s);
    end := p;
    NumeralEnd(t, pos, end);
    StoredZero(t[pos..end], s.x[..], k, j, dc, s.truncated);
    RoomKept(end - pos, emin, k, dc, PointAt(t[pos..end], 0));
    if gotdig {
      var bad, e := TakeExponent(t, p, pok);
      if bad {
        return BadExponent, end, e10;
      }
      e10 := e;
      lrp := lrp + e;
    } else {
      return NoDigits, end, e10;
    }
    if s.x[0] == 0 {
      return Zero, end, e10;
    }
    if lrp == dc && dc < 10 && (bits > 30 || s.x[0] / Bits.Pow2(bits) == 0) {
      SmallNumber(t[pos..end], s.x[..], k, j, dc, lrp - e10, e10);
      return Small(s.x[0], 0), end, e10;
    }
    DecimalRange(t[pos..end], e10);
    PointFound(t[pos..end], lrp, dc, e10);
    RoomKept(end - pos, emin, k, dc, lrp);
    PowUpTo(-emin / 2, lrp - 1);
    PowUpTo(lrp, emin - 2 * LDBL_MANT_DIG);
    if lrp > -emin / 2 {
      return Overflow, end, e10;
    }
    if lrp < emin - 2 * LDBL_MANT_DIG {
      return Underflow, end, e10;
    }
    r := Finish(s, k, j, lrp, dc, lnz, bits, t[pos..end], e10);
  }

  lemma PointFound(u: string, lrp: int, dc: nat, e10: int)
    requires Significant(u) == dc && dc - (lrp - e10) == Scale(u)
    ensures PointAt(u, e10) == lrp
  {
    hide Significant, Scale;
  }

  /** Room for the numeral is room for its limbs. */
  lemma RoomKept(len: nat, emin: int, k: nat, dc: nat, lrp: int)
    requires k <= dc / 9 && dc <= len && emin < 0
    ensures RoomFor(dc / 9 + 1, lrp) ==> RoomFor(k + 1, lrp) && dc <= 9 * (KMAX - 3)
    ensures Roomy(len, emin) && emin - 2 * LDBL_MANT_DIG <= lrp <= -emin / 2 ==> RoomFor(k + 1, lrp)
    ensures Roomy(len, emin) ==> dc <= 9 * (KMAX - 3)
  {
  }

  lemma PowUpTo(m: int, n: int)
    ensures m <= n ==> Pow(10.0, m) <= Pow(10.0, n)
  {
    if m <= n { PowMono(m, n); }
  }

  /** The steps that a number may be off, for a point at `rp`: one for digits left out, one for each round. */
  function Steps(rp: int): nat { 1 + MostUp(rp - 9) + MostDown(rp + 9) }

  /** Where the decimal point stands behind the first significant digit, with the exponent: `lrp` in the
      original. */
  ghost function PointAt(u: string, e10: int): int { Significant(u) - Scale(u) + e10 }

  /** Enough room in the ring for every limb of a numeral of `len` characters: for doubles, where
      `emin` is -1074, up to 15000 characters. */
  predicate Roomy(len: nat, emin: int) { len / 9 + 2 * (0 - emin) / 9 + 97 <= KMAX }

  /** The limbs that scaling may need, for `n` limbs with the radix point at `rp`. */
  predicate RoomFor(n: nat, rp: int) { n + 80 + (if rp < 0 then (0 - rp) / 9 else rp / 3) <= KMAX }

  /** Reads the exponent of a numeral that ends at `end`, if one follows; an `e` without digits
      is an error unless `pok` lets the reader back up. */
  method TakeExponent(t: string, end: nat, pok: bool) returns (bad: bool, e10: int)
    requires end <= |t|
    ensures bad <==> ExponentAt(t, end) && !DigitAt(t, ExponentStart(t, end)) && !pok
    ensures !bad ==> ExponentIs(t, end, e10)
  {
    hide Mantissa;
    bad, e10 := false, 0;
    if ExponentAt(t, end) {
      var e, stop := ScanExp(t, end + 1);
      ScannedIs(t, end, stop, e);
      if e.NoExponent? {
        return !pok, 0;
      }
      e10 := e.value;
    }
  }

  lemma NumeralEnd(t: string, pos: nat, end: nat)
    requires NumeralAt(t, pos, end)
    ensures pos <= end <= |t|
  {
  }

  lemma StoredZero(u: string, xs: seq<nat>, k: nat, j: nat, dc: nat, truncated: bool)
    requires Stored(u, xs, k, j, dc, truncated)
    ensures Layout(xs, k, j, dc) && (dc == 0 <==> Mantissa(u) == 0) && (dc == 0 <==> xs[0] == 0) && dc == Significant(u)
  {
  }

  /** A limb is multiplied by a power of ten only where the product needs no more than `bits` bits: it is below
      2^(bits + tens), and a multiple of 2^tens. */
  lemma SmallExact(n: nat, tens: nat, bits: nat)
    requires n < BASE && 0 < tens < 9 && (bits - 3 * tens > 30 || (bits >= 3 * tens && n < Bits.Pow2(bits - 3 * tens)))
    ensures n * TenPow(tens) < Bits.Pow2(bits + tens)
  {
    var p, q := Bits.Pow2(bits - 3 * tens), Bits.Pow2(4 * tens);
    if bits - 3 * tens > 30 {
      Bits.Pow2Mono(31, bits - 3 * tens);
      Bits.Pow2Is32();
    }
    TenPowBelow(tens);
    Bits.Pow2Add(bits - 3 * tens, 4 * tens);
    assert bits - 3 * tens + 4 * tens == bits + tens;
    hide TenPow, Bits.Pow2;
    Bits.MulMono(n + 1, p, q);
    Bits.MulMono(TenPow(tens), q, n);
    assert n * q + q == (n + 1) * q;
  }

  lemma {:induction false} TenPowBelow(n: nat)
    ensures TenPow(n) <= Bits.Pow2(4 * n)
  {
    if n > 0 {
      TenPowBelow(n - 1);
      TenPowNext(n - 1);
      hide TenPow;
      Bits.Pow2Add(4 * (n - 1), 4);
      assert Bits.Pow2(4) == 16;
    } else {
      TenPowZero();
    }
  }

  /** Digits up to the last that is not 0, and the decimal point, within the first two limbs; and the number
      of its bits is small enough to be multiplied exactly. */
  ghost predicate TakesShort(l: seq<nat>, lnz: nat, rp: int, bits: nat) {
    && l != [] && lnz < 9 && lnz <= rp < 18
    && (rp <= 9 || bits - 3 * (rp - 9) > 30 ||
        l[0] < Bits.Pow2(if bits < 3 * (rp - 9) then 0 else bits - 3 * (rp - 9)))
  }

  lemma AtLeastOnce(x: nat, p: nat)
    requires 0 < p <= x
    ensures x / p > 0
  {
    var q, r := x / p, x % p;
    assert x == p * q + r;
  }

  lemma FitsShort(x: nat, b: nat)
    ensures x / Bits.Pow2(b) == 0 <==> x < Bits.Pow2(b)
  {
    hide Bits.Pow2;
    var p := Bits.Pow2(b);
    if x < p { Bits.RemainderIs(x, p, 0, x); } else { AtLeastOnce(x, p); }
  }

  /** Scales the stored digits to a 64-bit significand, unless the first limb holds them all. */
  method Finish(s: Scaler, k: nat, j: nat, lrp: int, dc: nat, lnz: nat, bits: nat, ghost u: string, ghost e10: int)
    returns (r: Scan)
    requires s.x.Length == KMAX && Stored(u, s.x[..], k, j, dc, s.truncated) && dc > 0
    requires dc - (lrp - e10) == Scale(u) && Short(s.x[..], k, j, lnz, s.truncated) && lnz > 0
    modifies s, s.x
    ensures r.Small? || r.Scaled?
    ensures r.Small? <==> TakesShort(Padded(old(s.x[..]), k, j), lnz, lrp, bits)
    ensures r.Small? && r.tens > 0 && bits >= 24 ==> r.n * TenPow(r.tens) < Bits.Pow2(bits + r.tens)
    ensures r.Small? ==>
      && r.n < BASE && -9 < r.tens < 9 && !s.truncated
      && Times(DecimalValue(u), Pow(10.0, e10)) == Times(r.n as real, Pow(10.0, r.tens))
    ensures r.Scaled? ==>
      && s.Good() && s.rp == POINT && r.significand == Top(s.Limbs()) && r.e2 == s.e2
      && r.significand >= 0x8000_0000_0000_0000 && Rest(s.Limbs()) >= 0.0
      && Near(Times(DecimalValue(u), Pow(10.0, e10)), Times(r.significand as real + Rest(s.Limbs()), Pow(2.0, r.e2)),
        Steps(lrp))
    ensures RoomFor(k + 1, lrp) ==> s.truncated == old(s.truncated)
    ensures r.Scaled? && !s.truncated ==>
      && r.significand < 0x1_0000_0000_0000_0000
      && 0.0 <= Rest(s.Limbs()) <= RBASE / (RBASE - 1.0)
      && Times(DecimalValue(u), Pow(10.0, e10)) == Times(r.significand as real + Rest(s.Limbs()), Pow(2.0, r.e2))
  {
    hide Mantissa, Scale, Pow, Frac, Top, Padded, ValueOf, TenPow, DecimalValue, Rest, Stored, Ring, Short, Times, Near,
      OneStep, Steps, Bits.Pow2;
    ghost var v := Times(DecimalValue(u), Pow(10.0, e10));
    StoredZero(u, s.x[..], k, j, dc, s.truncated);
    PaddedGood(s.x[..], k, j, dc);
    if !s.truncated { PaddedValue(u, s.x[..], k, j, dc, lrp - e10, e10); }
    PaddedNear(u, s.x[..], k, j, dc, lrp - e10, e10, s.truncated);
    ShortPadded(s.x[..], k, j, dc, lnz, s.truncated);
    var z := FillLast(s, k, j);
    s.a, s.z, s.e2, s.rp := 0, z, 0, lrp;
    if lnz < 9 && lnz <= s.rp < 18 {
      assert s.x[0] == s.x[..z][0];
      LeadAlone(s.x[..z], lrp);
      FitsShort(s.x[0], BitLimit(bits, s.rp));
      if s.rp <= 9 || bits - 3 * (s.rp - 9) > 30 || s.x[0] / Bits.Pow2(BitLimit(bits, s.rp)) == 0 {
        if s.rp > 9 && bits >= 24 { SmallExact(s.x[0], s.rp - 9, bits); }
        return Small(s.x[0], s.rp - 9);
      }
    }
    LimbsFromZero(s);
    assert !s.truncated ==> s.Value() == v;
    ghost var w := s.Value();
    ghost var rounds := Normalize(s);
    NearSteps(v, w, s.Value(), rounds, lrp);
    var y := s.Assemble();
    TopRest(s.Limbs(), s.e2);
    if !s.truncated { Assembled(s.Limbs(), s.e2); }
    r := Scaled(y, s.e2);
  }

  lemma NearSteps(v: real, w: real, x: real, rounds: nat, lrp: int)
    requires OneStep(v, w) && Near(w, x, rounds) && 1 + rounds <= Steps(lrp) && v >= 0.0
    ensures Near(v, x, Steps(lrp))
  {
    hide Near, OneStep, Steps, Times;
    NearSame(v);
    NearNext(v, v, w, 0);
    NearSum(v, w, x, 1, rounds);
    NearMore(v, x, 1 + rounds, Steps(lrp));
  }

  /** Bits that an integer may have to be multiplied by a power of ten exactly. */
  function BitLimit(bits: nat, rp: int): nat { if bits < 3 * (rp - 9) then 0 else bits - 3 * (rp - 9) }

  lemma ShortPadded(xs: seq<nat>, k: nat, j: nat, dc: nat, lnz: nat, truncated: bool)
    requires Layout(xs, k, j, dc) && Short(xs, k, j, lnz, truncated) && dc > 0
    ensures var l := Padded(xs, k, j);
      l != [] && l[0] < BASE && (lnz < 9 ==> !truncated && forall i | 1 <= i < |l| :: l[i] == 0)
  {
    LastLimb(xs, k, j, dc);
  }

  /** Up to nine digits without fraction and exponent are the first limb. */
  lemma SmallNumber(u: string, xs: seq<nat>, k: nat, j: nat, dc: nat, lrp: int, e10: int)
    requires Stored(u, xs, k, j, dc, false) && 0 < dc < 10 && dc - lrp == Scale(u) && lrp + e10 == dc
    ensures xs[0] < BASE && Times(DecimalValue(u), Pow(10.0, e10)) == Times(xs[0] as real, Pow(10.0, 0))
  {
    hide Frac, Pow, Mantissa, Scale, TenPow, Times, ValueOf, DecimalValue, Padded;
    PaddedValue(u, xs, k, j, dc, lrp, e10);
    SmallLimb(xs, k, j, dc);
    LeadAlone(Padded(xs, k, j), dc);
    PowZero(10.0);
    TimesOne(xs[0] as real);
  }

  lemma SmallLimb(xs: seq<nat>, k: nat, j: nat, dc: nat)
    requires Layout(xs, k, j, dc) && 0 < dc < 10
    ensures var l := Padded(xs, k, j);
      |l| == 1 && xs[0] < BASE && Times(l[0] as real, Pow(10.0, dc - 9)) == xs[0] as real
  {
    hide Pow, TenPow, Times;
    var x := xs[0] as real;
    LastLimb(xs, k, j, dc);
    PowZero(10.0);
    TimesOne(x);
    if j > 0 {
      var p := TenPow(9 - j);
      TenPowIs(9 - j);
      PowSum(9 - j, j - 9);
      ProductReal(xs[0], p);
      TimesAssoc(x, p as real, Pow(10.0, j - 9));
      MulBelow(0, p, xs[0]);
    }
  }

  lemma LimbsFromZero(s: Scaler)
    requires s.x.Length == KMAX && s.a == 0 && s.z < KMAX
    ensures s.Count() == s.z && s.Limbs() == s.x[..s.z]
  {
  }

  /** The steps between reading the digits and reading off the significand. */
  method Normalize(s: Scaler) returns (ghost rounds: nat)
    requires s.Good() && s.a == 0 && s.Count() < KMAX - 1 && Bounded(s.Limbs(), BASE)
    modifies s, s.x
    ensures s.Good() && s.rp == POINT && Top(s.Limbs()) >= 0x8000_0000_0000_0000
    ensures !s.truncated ==>
      !old(s.truncated) && s.Value() == old(s.Value()) && Top(s.Limbs()) < 0x1_0000_0000_0000_0000
    ensures Near(old(s.Value()), s.Value(), rounds) && 1 + rounds <= Steps(old(s.rp))
    ensures old(RoomFor(s.Count(), s.rp)) ==> s.truncated == old(s.truncated)
  {
    hide Pow, Frac, Top, ValueOf, Ring, Growth, Near, OneStep;
    ghost var n, r := s.Count(), s.rp;
    s.DropTrailing();
    s.AlignRadix();
    ghost var r1 := s.rp;
    ghost var v := s.Value();
    ghost var ups := s.Upscale();
    ghost var w, r2 := s.Value(), s.rp;
    LeadBelow(s);
    GrowthBound(s.rp, s.Limbs()[0]);
    if RoomFor(n, r) { RoomEnough(n, r, r1, s.Count(), s.rp); }
    ghost var downs := s.Downscale();
    NearSum(v, w, s.Value(), ups, downs);
    rounds := ups + downs;
    StepsEnough(r, r1, r2);
  }

  lemma StepsEnough(rp: int, rp1: int, rp2: int)
    requires rp - 9 < rp1 < rp + 9 && (rp2 <= POINT + 9 || rp2 == rp1)
    ensures 1 + MostUp(rp1) + MostDown(rp2) <= Steps(rp)
  {
  }

  lemma LeadBelow(s: Scaler)
    requires s.Good()
    ensures s.Limbs() != [] && 0 < s.Limbs()[0] <= LIMB_MAX
  {
  }

  /** Neither scaling up nor scaling down fills the ring. */
  lemma RoomEnough(n: nat, rp: int, rp1: int, n2: nat, rp2: int)
    requires rp - 9 < rp1 < rp + 9 && (rp2 <= POINT + 9 || rp2 == rp1) && 9 * n2 - rp2 <= 9 * (n + 1) - rp1 &&
      rp2 >= POINT
    requires RoomFor(n, rp)
    ensures 9 * (n + 1) - rp1 + POINT + 9 < 9 * KMAX
    ensures n2 + 63 + (if rp2 <= POINT + 9 then 0 else 3 * ((rp2 - POINT - 9) / 9)) < KMAX
  {
  }
}
