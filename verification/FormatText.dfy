/**
 Writing the digits of a rounded number in fixed or scientific notation. What is written is read back, by the
 rules of `DecimalText`, as the number printed.
 */
module FormatText {
  import opened Chars
  import opened Closeness
  import opened DecFloat
  import opened DecimalText
  import opened FormatFloat
  import opened Limbs
  import opened Rounding
  import Bits
  import IntScan

  // ---------- numerals ----------

  predicate Digits(s: string) { forall i | 0 <= i < |s| :: IsDigit(s[i]) }

  /** Digits behind a numeral: places for its digits and for theirs. */
  lemma {:induction false} Join(u: string, v: string)
    requires Digits(v)
    ensures Mantissa(u + v) == Mantissa(u) * TenPow(|v|) + Mantissa(v)
    ensures Scale(u + v) == Scale(u) + (if '.' in u then |v| else 0) && ('.' in u + v <==> '.' in u)
    decreases |v|
  {
    hide Mantissa, Scale, TenPow;
    if v == [] {
      assert u + v == u;
      TenPowZero();
      MantissaEmpty();
    } else {
      var w, c := v[..|v| - 1], v[|v| - 1];
      Join(u, w);
      Extend(u + w, c);
      Extend(w, c);
      assert u + w + [c] == u + v && w + [c] == v;
      TenPowNext(|w|);
      Regroup(Mantissa(u), TenPow(|w|), Mantissa(w), DigitOf(c));
    }
  }

  lemma Regroup(m: nat, t: nat, w: nat, d: nat)
    ensures 10 * (m * t + w) + d == m * (10 * t) + (10 * w + d)
  {
  }

  lemma {:induction false} Below(s: string)
    requires Digits(s)
    ensures Mantissa(s) < TenPow(|s|) && (s != [] && s[0] != '0' ==> TenPow(|s| - 1) <= Mantissa(s))
    decreases |s|
  {
    hide Mantissa, TenPow;
    if s == [] {
      MantissaEmpty();
      TenPowZero();
    } else {
      var w, c := s[..|s| - 1], s[|s| - 1];
      Below(w);
      assert w + [c] == s;
      Extend(w, c);
      TenPowNext(|w|);
      if w == [] {
        MantissaEmpty();
        TenPowZero();
      } else {
        TenPowNext(|w| - 1);
      }
    }
  }

  /** The digits of the integer printers are digits of numerals. */
  lemma {:induction false} SameDigits(s: string)
    requires forall i | 0 <= i < |s| :: IntScan.DigitOf(s[i]) < 10
    ensures Digits(s) && Mantissa(s) == IntScan.ValueIn(s, 10)
    decreases |s|
  {
    if s != [] {
      var w, c := s[..|s| - 1], s[|s| - 1];
      SameDigits(w);
      assert w + [c] == s;
      Extend(w, c);
      assert Bits.Mul(10, Mantissa(w)) == 10 * Mantissa(w);
    }
  }

  function Zeros(n: nat): (s: string)
    ensures |s| == n && Digits(s)
  {
    seq(n, i => '0')
  }

  lemma {:induction false} ZerosValue(n: nat)
    ensures Mantissa(Zeros(n)) == 0
  {
    if n > 0 {
      ZerosValue(n - 1);
      assert Zeros(n) == Zeros(n - 1) + ['0'];
      Extend(Zeros(n - 1), '0');
    }
  }

  /** The first digits of nine. */
  lemma FirstDigits(s: string, m: nat)
    requires Digits(s) && m <= |s|
    ensures Digits(s[..m]) && Mantissa(s[..m]) == Mantissa(s) / TenPow(|s| - m)
  {
    hide Mantissa, TenPow;
    var u, v := s[..m], s[m..];
    assert s == u + v;
    Join(u, v);
    Below(v);
    Bits.RemainderIs(Mantissa(s), TenPow(|v|), Mantissa(u), Mantissa(v));
  }

  lemma QuotientTwice(x: nat, a: nat, b: nat)
    requires a > 0 && b > 0
    ensures x / a / b == x / (a * b) && a * b > 0
  {
    Bits.DivSmall(x, a);
    var q, r := x / a, x % a;
    Bits.DivSmall(q, b);
    var p, s := q / b, q % b;
    Bits.MulMono(s + 1, b, a);
    Bits.MulMono(1, b, a);
    Nested(x, a, b, p, s, r);
    Bits.RemainderIs(x, a * b, p, a * s + r);
  }

  lemma Nested(x: nat, a: nat, b: nat, p: nat, s: nat, r: nat)
    requires x == a * (b * p + s) + r
    ensures x == a * b * p + (a * s + r)
  {
  }

  // ---------- limbs ----------

  /** The leading limbs of a number. */
  lemma {:induction false} IntPrefix(s: seq<nat>, k: nat)
    requires Normal(s) && k <= |s|
    ensures Int(s[..k]) == Int(s) / TenPow(9 * (|s| - k))
    decreases |s| - k
  {
    hide TenPow, Int, Normal;
    if k == |s| {
      assert s[..k] == s;
      TenPowZero();
    } else {
      var w, x := s[..|s| - 1], s[|s| - 1];
      LimbNormal(s, |s| - 1);
      NormalPart(s, w, 0);
      IntPrefix(w, k);
      assert s == w + [x] && w[..k] == s[..k];
      IntAppend(w, x);
      Bits.RemainderIs(Int(s), BASE, Int(w), x);
      QuotientTwice(Int(s), BASE, TenPow(9 * (|w| - k)));
      TenPowSplit(9, 9 * (|w| - k));
      TenPowNine();
      assert 9 + 9 * (|w| - k) == 9 * (|s| - k);
    }
  }

  /** The digits of `i` up to `p` of its `places` last ones. */
  ghost function CutAfter(i: nat, places: nat, p: nat): nat {
    if p >= places then i
    else
      Bits.DivSmall(i, TenPow(places - p));
      i / TenPow(places - p)
  }

  /** Cutting the leading limbs is cutting the number. */
  lemma CutPrefix(s: seq<nat>, k: nat, q: nat)
    requires Normal(s) && k <= |s|
    ensures Int(s[..k]) / TenPow(q) == Int(s) / TenPow(9 * (|s| - k) + q)
  {
    hide TenPow, Int, Normal;
    IntPrefix(s, k);
    QuotientTwice(Int(s), TenPow(9 * (|s| - k)), TenPow(q));
    TenPowSplit(9 * (|s| - k), q);
  }

  /** Nine digits more, of which `m` are written. */
  lemma NextLimb(h: nat, x: nat, m: nat)
    requires x < BASE && m <= 9
    ensures (h * BASE + x) / TenPow(9 - m) == h * TenPow(m) + x / TenPow(9 - m)
  {
    hide TenPow;
    TenPowSplit(m, 9 - m);
    TenPowNine();
    var a, b := TenPow(m), TenPow(9 - m);
    Bits.DivSmall(x, b);
    HigherPart(h, a, b, x / b, x % b);
    Bits.RemainderIs(h * BASE + x, b, h * a + x / b, x % b);
  }

  lemma HigherPart(h: nat, a: nat, b: nat, q: nat, r: nat)
    ensures h * (a * b) + (b * q + r) == b * (h * a + q) + r
  {
  }

  // ---------- groups of nine digits ----------

  /** `m` units of group `k` behind the point; before the point groups count downward from 0. */
  ghost function GroupUnits(m: nat, k: int): real { Times(m as real, Pow(10.0, -9 * k)) }

  ghost predicate InGroups(y: real, k: int) { exists m: nat :: y == GroupUnits(m, k) }

  /** The least group of which the number is a whole multiple: its last digit that is not 0 lies there. */
  ghost predicate LastGroup(y: real, k: int) { InGroups(y, k) && !InGroups(y, k - 1) }

  lemma GroupUp(m: nat, k: int)
    ensures GroupUnits(m, k - 1) == GroupUnits(m * BASE, k)
  {
    hide Times, Pow;
    ProductReal(m, BASE);
    TenPowNine();
    TenPowIs(9);
    TimesAssoc(m as real, Pow(10.0, 9), Pow(10.0, -9 * k));
    PowSum(9, -9 * k);
    assert 9 + -9 * k == -9 * (k - 1);
  }

  lemma GroupApart(i: nat, q: nat, x: nat, m: nat, k: int)
    requires i == q * BASE + x && 0 < x < BASE
    ensures GroupUnits(i, k) != GroupUnits(m, k - 1)
  {
    hide Times, Pow;
    GroupUp(m, k);
    if GroupUnits(i, k) == GroupUnits(m, k - 1) {
      SameFactor(i, m * BASE, Pow(10.0, -9 * k));
      Bits.RemainderIs(i, BASE, q, x);
      Bits.RemainderIs(i, BASE, m, 0);
    }
  }

  lemma {:induction false} InGroupsUp(y: real, k: int, l: int)
    requires InGroups(y, k) && k <= l
    ensures InGroups(y, l)
    decreases l - k
  {
    if k < l {
      var m: nat :| y == GroupUnits(m, k);
      GroupUp(m, k + 1);
      assert y == GroupUnits(m * BASE, k + 1);
      InGroupsUp(y, k + 1, l);
    }
  }

  lemma OneLastGroup(y: real, k: int, l: int)
    requires LastGroup(y, k) && LastGroup(y, l)
    ensures k == l
  {
    if k < l { InGroupsUp(y, k, l - 1); } else if l < k { InGroupsUp(y, l, k - 1); }
  }

  /** The last limb, which is not 0, is the last group. */
  lemma LastGroupIs(dec: Decimal)
    requires dec.Printable() && dec.e2 == 0 && dec.a < dec.z
    ensures LastGroup(dec.Printed(), dec.z - dec.r - 1)
  {
    hide Int, ValueOf, GroupUnits, Trimmed, Normal;
    var s, k := dec.big[dec.a..dec.z], dec.z - dec.r - 1;
    LimbUnits(dec, s, k);
    TrimmedNonempty(s);
    var w, x := s[..|s| - 1], s[|s| - 1];
    assert s == w + [x];
    IntAppend(w, x);
    LimbNormal(s, |s| - 1);
    assert InGroups(dec.Printed(), k);
    if InGroups(dec.Printed(), k - 1) {
      var m: nat :| dec.Printed() == GroupUnits(m, k - 1);
      GroupApart(Int(s), Int(w), x, m, k);
    }
  }

  lemma LimbUnits(dec: Decimal, s: seq<nat>, k: int)
    requires dec.a < dec.z <= dec.big.Length && dec.e2 == 0 && s == dec.big[dec.a..dec.z] && k == dec.z - dec.r - 1
    ensures dec.Printed() == GroupUnits(Int(s), k)
  {
    hide Int, ValueOf, Times, Pow;
    IntValue(s, dec.r - dec.a + 1);
    assert 9 * (dec.r - dec.a + 1 - |s|) == -9 * k;
  }

  // ---------- writing ----------

  /** gob_format_unsigned on a limb: its digits, none for 0. */
  method LimbText(v: nat) returns (s: string)
    requires v < BASE
    ensures Digits(s) && Mantissa(s) == v && |s| <= 9 && (s != [] ==> s[0] != '0') && (v == 0 <==> s == [])
  {
    hide TenPow, Mantissa;
    s := IntScan.FormatUnsigned(v);
    SameDigits(s);
    Below(s);
    MantissaEmpty();
    LongIsLarge(|s|);
  }

  lemma LongIsLarge(n: nat)
    ensures n > 9 ==> TenPow(n - 1) >= BASE
  {
    if n > 9 {
      hide TenPow;
      TenPowNine();
      TenPowSplit(9, n - 10);
      Bits.MulMono(1, TenPow(n - 10), TenPow(9));
    }
  }

  /** A limb with all its nine digits. */
  method LimbPadded(v: nat) returns (s: string)
    requires v < BASE
    ensures Digits(s) && Mantissa(s) == v && |s| == 9
  {
    s := LimbText(v);
    while |s| < 9
      invariant Digits(s) && Mantissa(s) == v && |s| <= 9
      decreases 9 - |s|
    {
      LeadingZero(s);
      s := ['0'] + s;
    }
  }

  lemma LeadingZero(s: string)
    requires Digits(s)
    ensures Mantissa(['0'] + s) == Mantissa(s)
  {
    Join(['0'], s);
    assert Mantissa(['0']) == 10 * Mantissa([]) + 0 by { assert ['0'][..0] == []; }
  }

  /** The original's padding: `l` characters, and not `width - l`, if there is something to fill at all. */
  function Padding(width: int, l: nat): (s: string)
    ensures Digits(s)
  {
    if l >= width then [] else Zeros(l)
  }

  /** Where the limbs end that may be written from `d` on. */
  function EndFrom(dec: Decimal, d: nat): nat
    reads dec
  {
    if dec.z > d then dec.z else d
  }

  /** The two loops that write limbs behind the point, with `p` digits to go: the one for scientific notation
      turns once more when none is left, and writes nothing then. */
  method WriteLimbs(dec: Decimal, before: string, start: nat, p0: int, scientific: bool, ghost lo: nat)
    returns (text: string, p: int)
    requires lo <= start <= dec.big.Length && dec.z <= dec.big.Length
    requires Normal(dec.big[lo..EndFrom(dec, start)])
    requires p0 >= 0 ==> Mantissa(before) == Int(dec.big[lo..start])
    requires p0 > 0 ==> '.' in before
    ensures p0 <= 0 ==> text == before
    ensures p0 < 0 ==> p == p0
    ensures |before| <= |text| && text[..|before|] == before && Digits(text[|before|..])
    ensures p0 >= 0 ==> var places := 9 * (EndFrom(dec, start) - start);
      && Mantissa(text) == CutAfter(Int(dec.big[lo..EndFrom(dec, start)]), places, p0)
      && Scale(text) == Scale(before) + (if p0 < places then p0 else places)
      && if p0 >= places then p == p0 - places else p <= 0
  {
    hide Mantissa, Scale, Int, Normal, TenPow;
    ghost var end := EndFrom(dec, start);
    text, p := before, p0;
    var d := start;
    ghost var written: string := [];
    assert before + written == before && dec.big[lo..end][..start - lo] == dec.big[lo..start];
    while d < dec.z && (p > 0 || (scientific && p == 0))
      invariant start <= d <= end && text == before + written && Digits(written)
      invariant (p0 < 0 ==> p == p0) && (p0 <= 0 ==> text == before && p <= 0)
      invariant p0 >= 0 ==> Written(dec.big[lo..end], d - lo, d - start, p0, p, text, before)
      decreases end - d
    {
      ghost var h := dec.big[lo..d];
      LimbInside(dec, lo, d, end);
      var s := LimbPadded(dec.big[d]);
      var m := if p < 9 then p else 9;
      WriteMore(dec.big[lo..end], d - lo, d - start, p0, p, text, before, s);
      text := text + s[..m];
      written := written + s[..m];
      p := p - 9;
      d := d + 1;
    }
    if p0 >= 0 { WrittenEnd(dec.big[lo..end], d - lo, d - start, p0, p, text, before); }
    assert text[|before|..] == written;
  }

  lemma LimbInside(dec: Decimal, lo: nat, d: nat, end: nat)
    requires lo <= d < end <= dec.big.Length && Normal(dec.big[lo..end])
    ensures dec.big[d] < BASE && dec.big[lo..end][d - lo] == dec.big[d]
  {
  }

  /** After `k` limbs, `n` of them behind the point: with digits left to write, all of them are there, and else
      the last `-p` digits are not. */
  ghost predicate Written(s: seq<nat>, k: nat, n: nat, p0: nat, p: int, text: string, before: string)
    requires k <= |s|
  {
    && p == p0 - 9 * n && -9 <= p
    && Mantissa(text) == (if p >= 0 then Int(s[..k]) else Int(s[..k]) / TenPow(0 - p))
    && Scale(text) == Scale(before) + (if p >= 0 then 9 * n else p0) && (p0 > 0 ==> '.' in text)
  }

  lemma WriteMore(s: seq<nat>, k: nat, n: nat, p0: nat, p: int, text: string, before: string, t: string)
    requires k < |s| && Written(s, k, n, p0, p, text, before) && p >= 0
    requires Digits(t) && |t| == 9 && Mantissa(t) == s[k] < BASE
    ensures var m := if p < 9 then p else 9;
      Written(s, k + 1, n + 1, p0, p - 9, text + t[..m], before) && Digits(t[..m])
  {
    hide Mantissa, Scale, Int, TenPow;
    var m := if p < 9 then p else 9;
    FirstDigits(t, m);
    Join(text, t[..m]);
    IntNext(s, k);
    NextLimb(Int(s[..k]), s[k], m);
    TenPowZero();
  }

  lemma WrittenEnd(s: seq<nat>, k: nat, n: nat, p0: nat, p: int, text: string, before: string)
    requires k <= |s| && n <= k && Normal(s) && Written(s, k, n, p0, p, text, before) && (k < |s| ==> p <= 0)
    ensures var places := 9 * (|s| - k + n);
      && Mantissa(text) == CutAfter(Int(s), places, p0)
      && Scale(text) == Scale(before) + (if p0 < places then p0 else places)
      && if p0 >= places then p == p0 - places else p <= 0
  {
    hide Mantissa, Scale, Int, TenPow, Normal;
    var places := 9 * (|s| - k + n);
    CutPrefix(s, k, if p >= 0 then 0 else 0 - p);
    TenPowZero();
    assert s[..|s|] == s;
    assert p <= 0 ==> 9 * (|s| - k) + (0 - p) == places - p0;
  }

  /** The limbs from `lo` to `end` are the number printed, if zeros surround it there. */
  lemma ShownIs(dec: Decimal, lo: nat, end: nat)
    requires dec.Printable() && dec.e2 == 0 && lo <= end <= dec.big.Length
    requires dec.a < dec.z ==> lo <= dec.a && dec.z <= end
    requires forall k | lo <= k < end && !(dec.a <= k < dec.z) :: dec.big[k] == 0
    ensures dec.Printed() == Times(Int(dec.big[lo..end]) as real, Pow(10.0, 9 * (dec.r + 1 - end)))
    ensures Normal(dec.big[lo..end])
  {
    hide Int, ValueOf, Times, Pow, Trimmed;
    var s, n := dec.big[lo..end], dec.r - lo + 1;
    var a, z := dec.a, dec.z;
    IntValue(s, n);
    assert forall k | 0 <= k < |s| :: s[k] == dec.big[lo + k];
    if a < z {
      LeadZeros(s, a - lo, n, 0);
      TrailZeros(s[a - lo..], z - a, 9 * (dec.r - a + 1), 0);
      assert s[a - lo..][..z - a] == dec.big[a..z];
      AllNormal(dec.big, lo, a, z, end);
    } else {
      LeadZeros(s, |s|, n, 0);
      assert s[|s|..] == [];
      NothingLeft(0.0, 9 * (n - |s|), 0);
      dec.PrintsNothing();
    }
  }

  lemma AllNormal(big: array<nat>, lo: nat, a: nat, z: nat, end: nat)
    requires lo <= a < z <= end <= big.Length && Normal(big[a..z])
    requires forall k | lo <= k < end && !(a <= k < z) :: big[k] == 0
    ensures Normal(big[lo..end])
  {
    forall i | 0 <= i < end - lo ensures big[lo..end][i] < BASE {
      if a <= lo + i < z { assert big[a..z][lo + i - a] == big[lo + i]; }
    }
  }

  /** A numeral in which `point` digits stand before the point. */
  ghost predicate Numeral(text: string, point: nat) {
    && 0 < point <= |text| && Digits(text[..point])
    && (point < |text| ==> text[point] == '.' && Digits(text[point + 1..]))
  }

  /** The limbs up to the point, the first one as it is and the others with nine digits. */
  method WriteWhole(dec: Decimal, lo: nat) returns (text: string)
    requires lo <= dec.r < dec.big.Length && Normal(dec.big[lo..dec.r + 1])
    ensures Digits(text) && text != [] && Mantissa(text) == Int(dec.big[lo..dec.r + 1]) && Scale(text) == 0
    ensures (dec.big[lo] > 0 ==> text[0] != '0') && (dec.big[lo] == 0 && lo == dec.r ==> text == "0")
  {
    hide Mantissa, Scale, Int, Normal, TenPow;
    text := [];
    var d := lo;
    MantissaEmpty();
    IntNil(dec.big[lo..]);
    ghost var s := dec.big[lo..dec.r + 1];
    assert s[..0] == dec.big[lo..][..0];
    while d <= dec.r
      invariant lo <= d <= dec.r + 1 && Digits(text) && Mantissa(text) == Int(s[..d - lo])
      invariant d > lo ==> text != [] && (dec.big[lo] > 0 ==> text[0] != '0')
      invariant d == lo ==> text == []
      invariant d == lo + 1 && dec.big[lo] == 0 ==> text == "0"
      decreases dec.r + 1 - d
    {
      LimbInside(dec, lo, d, dec.r + 1);
      var t;
      if d == lo {
        t := LimbText(dec.big[d]);
        if t == "" {
          t := "0";
          ZeroDigit();
        }
      } else {
        t := LimbPadded(dec.big[d]);
      }
      JoinLimb(text, t, if d == lo then 0 else 9);
      IntNext(s, d - lo);
      text := text + t;
      d := d + 1;
    }
    assert s[..|s|] == s;
    Join([], text);
    assert [] + text == text;
    ScaleEmpty();
  }

  lemma IntNil(s: seq<nat>)
    ensures Int(s[..0]) == 0
  {
  }

  lemma ScaleEmpty()
    ensures Scale([]) == 0
  {
  }

  lemma ZeroDigit()
    ensures Digits("0") && Mantissa("0") == 0
  {
    MantissaEmpty();
    Extend([], '0');
    assert [] + ['0'] == "0";
  }

  lemma JoinLimb(text: string, t: string, width: nat)
    requires Digits(text) && Digits(t) && ((width == 0 && text == []) || width == 9 == |t|)
    ensures Digits(text + t) && Mantissa(text + t) == Mantissa(text) * BASE + Mantissa(t)
  {
    hide Mantissa, TenPow;
    Join(text, t);
    TenPowNine();
    MantissaEmpty();
  }

  /** How many decimals come out when `p` are asked for and `places` are in the limbs. */
  function Decimals(p: nat, places: nat, padding: nat): nat { if p <= places then p else places + padding }

  /** The places in the limbs, if the last one is group `k` behind the point. */
  function FixedPlaces(k: int): nat { if k > 0 then 9 * k else 0 }

  /** What a text of `places` digits behind the place `e`, cut after `p0`, denotes. */
  lemma SameNumber(i: nat, places: nat, p0: nat, n: nat, e: int, padding: nat, m: nat, y: real)
    requires y == Times(i as real, Pow(10.0, e - places)) && y == Times(n as real, Pow(10.0, e - p0))
    requires m == CutAfter(i, places, p0) * if p0 > places then TenPow(padding) else 1
    ensures Times(Times(m as real, Pow(10.0, 0 - Decimals(p0, places, padding))), Pow(10.0, e)) == y
  {
    hide Times, Pow, TenPow;
    var scale := Decimals(p0, places, padding);
    TimesAssoc(m as real, Pow(10.0, 0 - scale), Pow(10.0, e));
    PowSum(0 - scale, e);
    assert 0 - scale + e == e - scale;
    if p0 > places {
      TenPowIs(padding);
      ProductReal(i, TenPow(padding));
      TimesAssoc(i as real, Pow(10.0, padding), Pow(10.0, e - scale));
      PowSum(padding, e - scale);
      assert padding + (e - scale) == e - places;
    } else {
      var t := TenPow(places - p0);
      TenPowIs(places - p0);
      PowSum(places - p0, e - places);
      assert places - p0 + (e - places) == e - p0;
      TimesAssoc(n as real, Pow(10.0, places - p0), Pow(10.0, e - places));
      ProductReal(n, t);
      SameFactor(i, n * t, Pow(10.0, e - places));
      Bits.RemainderIs(i, t, n, 0);
      TenPowZero();
      if p0 == places { assert t == 1; }
    }
  }

  lemma SameFactor(i: nat, k: nat, w: real)
    requires w > 0.0 && Times(i as real, w) == Times(k as real, w)
    ensures i == k
  {
    hide Times;
    TimesOrder(i as real, k as real, w);
    TimesOrder(k as real, i as real, w);
  }

  /** A number in fixed notation with `p` decimals asked for. It always denotes the number printed. */
  method WriteFixed(dec: Decimal, p: nat, alternative: bool, ghost n: nat) returns (text: string, ghost point: nat)
    requires dec.Printable() && dec.Whole() && dec.e2 == 0 && dec.Printed() == Times(n as real, Pow(10.0, 0 - p))
    ensures Numeral(text, point) && (point < |text| <==> p > 0 || alternative)
    ensures DecimalValue(text) == dec.Printed()
    ensures Scale(text) == Decimals(p, FixedPlaces(dec.z - dec.r - 1), 9)
    ensures if dec.a > dec.r then text[..point] == "0" else dec.a < dec.z ==> text[0] != '0'
  {
    hide Mantissa, Scale, Int, Normal, TenPow, Times, Pow, DecimalValue, Trimmed, Numeral, CutAfter;
    var lo := if dec.a > dec.r then dec.r else dec.a;
    ghost var end := EndFrom(dec, dec.r + 1);
    ShownIs(dec, lo, end);
    FirstLimb(dec);
    text, point := FixedDigits(dec, lo, p, alternative);
    ghost var places := 9 * (end - dec.r - 1);
    SameNumber(Int(dec.big[lo..end]), places, p, n, 0, 9, Mantissa(text), dec.Printed());
    IsDecimal(text, Decimals(p, places, 9));
    PowAtZero(DecimalValue(text));
  }

  method FixedDigits(dec: Decimal, lo: nat, p: nat, alternative: bool) returns (text: string, ghost point: nat)
    requires lo <= dec.r < dec.big.Length && dec.z <= dec.big.Length && Normal(dec.big[lo..EndFrom(dec, dec.r + 1)])
    ensures var end := EndFrom(dec, dec.r + 1); var places := 9 * (end - dec.r - 1);
      && Mantissa(text) == CutAfter(Int(dec.big[lo..end]), places, p) * (if p > places then TenPow(9) else 1)
      && Scale(text) == Decimals(p, places, 9)
    ensures Numeral(text, point) && (point < |text| <==> p > 0 || alternative)
    ensures (dec.big[lo] > 0 ==> text[0] != '0') && (dec.big[lo] == 0 && lo == dec.r ==> text[..point] == "0")
  {
    hide Mantissa, Scale, Int, Normal, TenPow, Numeral, CutAfter;
    ghost var end := EndFrom(dec, dec.r + 1);
    SlicePart(dec.big, lo, dec.r + 1, end);
    NormalPart(dec.big[lo..end], dec.big[lo..dec.r + 1], 0);
    var whole := WriteWhole(dec, lo);
    point := |whole|;
    text := whole;
    if p > 0 || alternative {
      PointAfter(text);
      text := text + ".";
    }
    ghost var head := text;
    var left;
    text, left := WriteLimbs(dec, text, dec.r + 1, p, false, lo);
    AddPadding(text, left + 9, 9, p > 9 * (end - dec.r - 1));
    TwoParts(whole, p > 0 || alternative, text[|head|..], Padding(left + 9, 9), text + Padding(left + 9, 9));
    text := text + Padding(left + 9, 9);
  }

  lemma PowAtZero(x: real)
    ensures Times(x, Pow(10.0, 0)) == x
  {
    PowZero(10.0);
    TimesOne(x);
  }

  lemma IsDecimal(text: string, scale: nat)
    requires Scale(text) == scale
    ensures DecimalValue(text) == Times(Mantissa(text) as real, Pow(10.0, 0 - scale))
  {
  }

  lemma PointAfter(text: string)
    requires Digits(text)
    ensures Mantissa(text + ".") == Mantissa(text) && Scale(text + ".") == Scale(text) && '.' in text + "."
  {
    Extend(text, '.');
  }

  /** The padding adds zeros. */
  lemma AddPadding(text: string, width: int, l: nat, some: bool)
    requires some ==> '.' in text
    requires some <==> width > l
    ensures Mantissa(text + Padding(width, l)) == Mantissa(text) * if some then TenPow(l) else 1
    ensures Scale(text + Padding(width, l)) == Scale(text) + if some then l else 0
  {
    hide Mantissa, Scale, TenPow;
    ZerosValue(l);
    Join(text, Padding(width, l));
    if !some { assert text + Padding(width, l) == text; }
  }

  lemma TwoParts(whole: string, dot: bool, more: string, padding: string, text: string)
    requires Digits(whole) && whole != [] && Digits(more) && Digits(padding)
    requires text == whole + (if dot then "." else "") + more + padding && (dot || (more == [] && padding == []))
    ensures Numeral(text, |whole|) && (|whole| < |text| <==> dot) && text[..|whole|] == whole && text[0] == whole[0]
  {
    assert text[..|whole|] == whole;
    if dot { assert text[|whole| + 1..] == more + padding; }
  }

  lemma FirstLimb(dec: Decimal)
    requires dec.Printable()
    ensures dec.a < dec.z ==> 0 < dec.big[dec.a] < BASE
  {
    if dec.a < dec.z { assert dec.big[dec.a..dec.z][0] == dec.big[dec.a]; }
  }

  // ---------- scientific notation ----------

  /** A number has one decimal exponent. */
  lemma OneDecade(e: int, f: int, y: real)
    requires InDecade(e, y) && InDecade(f, y)
    ensures e == f
  {
    hide Pow;
    PowLess(e, f + 1);
    PowLess(f, e + 1);
  }

  /** The first limb says how many digits stand before the point of its place. */
  lemma ExponentOf(dec: Decimal, s: string, e: int)
    requires dec.Printable() && dec.e2 == 0 && dec.a < dec.z && InDecade(e, dec.Printed())
    requires Digits(s) && Mantissa(s) == dec.big[dec.a] < BASE && 0 < |s| <= 9 && s[0] != '0'
    ensures e == 9 * (dec.r - dec.a) + |s| - 1
  {
    hide TenPow, Mantissa, InDecade, Trimmed, Normal;
    Below(s);
    dec.Leads(9 * (dec.r - dec.a) + |s| - 1);
    OneDecade(e, 9 * (dec.r - dec.a) + |s| - 1, dec.Printed());
  }

  /** A number in scientific notation, with `p` digits behind the first one asked for and its exponent behind
      them. It always denotes the number printed, and is read so. */
  method WriteScientific(dec: Decimal, p: nat, e: int, alternative: bool, upper: bool, ghost n: nat)
    returns (text: string, ghost point: nat, end: nat)
    requires dec.Printable() && dec.e2 == 0 && dec.Printed() == Times(n as real, Pow(10.0, e - p))
    requires if dec.a < dec.z then InDecade(e, dec.Printed()) else e == 0 && dec.big[dec.a] == 0
    requires -0x8000_0000 < e < 0x8000_0000
    ensures 0 < end < |text| && Numeral(text[..end], point) && point == 1 && (1 < end <==> p > 0 || alternative)
    ensures Times(DecimalValue(text[..end]), Pow(10.0, e)) == dec.Printed()
    ensures NumeralAt(text, 0, end) && ExponentIs(text, end, e) && WellWritten(text, end, e)
    ensures dec.a < dec.z ==> text[0] != '0'
    ensures Shown(text[..end], p, if dec.a < dec.z then e + 9 * (dec.z - dec.r - 1) else 0, 18)
  {
    hide Mantissa, Scale, Times, Pow, DecimalValue, Numeral, InDecade, ExponentIs, NumeralAt, WellWritten, Shown;
    hide Decimal.Printable;
    text, point := WriteSignificand(dec, p, e, alternative, n);
    end := |text|;
    var exponent := WriteExponent(e, upper, text);
    ReadsAsNumeral(text, point, exponent);
    WrittenWell(text, point, exponent, e);
    assert (text + exponent)[..end] == text;
    text := text + exponent;
  }

  /** The part before the exponent. */
  method WriteSignificand(dec: Decimal, p: nat, e: int, alternative: bool, ghost n: nat)
    returns (text: string, ghost point: nat)
    requires dec.Printable() && dec.e2 == 0 && dec.Printed() == Times(n as real, Pow(10.0, e - p))
    requires if dec.a < dec.z then InDecade(e, dec.Printed()) else e == 0 && dec.big[dec.a] == 0
    ensures text != [] && Numeral(text, point) && point == 1 && (1 < |text| <==> p > 0 || alternative)
    ensures Times(DecimalValue(text), Pow(10.0, e)) == dec.Printed() && (dec.a < dec.z ==> text[0] != '0')
    ensures Shown(text, p, if dec.a < dec.z then e + 9 * (dec.z - dec.r - 1) else 0, 18)
  {
    hide Mantissa, Scale, Int, Normal, TenPow, Times, Pow, DecimalValue, Trimmed, Numeral, CutAfter, InDecade, Shown;
    hide Decimal.Printable;
    ghost var last := EndFrom(dec, dec.a + 1);
    ShownFrom(dec, last);
    FirstLimb(dec);
    var digits := LimbText(dec.big[dec.a]);
    if digits == "" {
      digits := "0";
      ZeroDigit();
    }
    if dec.a < dec.z { ExponentOf(dec, digits, e); }
    ghost var i, places := Int(dec.big[dec.a..last]), |digits| - 1 + 9 * (last - dec.a - 1);
    text, point := ScientificDigits(dec, digits, p, alternative);
    if dec.a >= dec.z {
      ZeroLimb(dec.big, dec.a, last);
      NothingLeft(Pow(10.0, 9 * (dec.r + 1 - last)), 0, 0);
      NothingLeft(Pow(10.0, e - places), 0, 0);
    }
    SameNumber(i, places, p, n, e, 18, Mantissa(text), dec.Printed());
    IsDecimal(text, Decimals(p, places, 18));
    ShownHere(text, p, places);
  }

  lemma ShownFrom(dec: Decimal, last: nat)
    requires dec.Printable() && dec.e2 == 0 && last == EndFrom(dec, dec.a + 1)
    requires dec.a >= dec.z ==> dec.big[dec.a] == 0
    ensures dec.a < last <= dec.big.Length && Normal(dec.big[dec.a..last])
    ensures dec.Printed() == Times(Int(dec.big[dec.a..last]) as real, Pow(10.0, 9 * (dec.r + 1 - last)))
  {
    hide Int, Normal, Times, Pow, Trimmed;
    ShownIs(dec, dec.a, last);
  }

  /** The decimals that come out are those asked for, or as many as the number has and padding behind them. */
  ghost predicate Shown(text: string, p: nat, places: int, padding: nat) {
    places >= 0 && Scale(text) == Decimals(p, places, padding)
  }

  lemma ShownHere(text: string, p: nat, places: nat)
    requires Scale(text) == Decimals(p, places, 18)
    ensures Shown(text, p, places, 18)
  {
  }

  lemma ZeroLimb(big: array<nat>, a: nat, last: nat)
    requires a < big.Length && last == a + 1 && big[a] == 0
    ensures Int(big[a..last]) == 0
  {
    assert big[a..last] == [0];
  }

  /** The digits of the first limb with the point behind the first of them, and the limbs that follow. */
  method ScientificDigits(dec: Decimal, digits: string, p: nat, alternative: bool)
    returns (text: string, ghost point: nat)
    requires dec.a < dec.big.Length && dec.z <= dec.big.Length && Normal(dec.big[dec.a..EndFrom(dec, dec.a + 1)])
    requires Digits(digits) && 0 < |digits| <= 9 && Mantissa(digits) == dec.big[dec.a]
    ensures var last := EndFrom(dec, dec.a + 1); var places := |digits| - 1 + 9 * (last - dec.a - 1);
      && Mantissa(text) == CutAfter(Int(dec.big[dec.a..last]), places, p) * (if p > places then TenPow(18) else 1)
      && Scale(text) == Decimals(p, places, 18)
    ensures text != [] && Numeral(text, point) && point == 1 && (1 < |text| <==> p > 0 || alternative)
    ensures text[0] == digits[0]
  {
    hide Mantissa, Scale, Int, Normal, TenPow, Numeral, CutAfter, EndFrom;
    ghost var more;
    var left;
    point := 1;
    text, left, more := Unpadded(dec, digits, p, alternative);
    AddPadding(text, left + 18, 18, left > 0);
    TwoParts(digits[..1], p > 0 || alternative, more, Padding(left + 18, 18), text + Padding(left + 18, 18));
    text := text + Padding(left + 18, 18);
  }

  method Unpadded(dec: Decimal, digits: string, p: nat, alternative: bool)
    returns (text: string, left: int, ghost more: string)
    requires dec.a < dec.big.Length && dec.z <= dec.big.Length && Normal(dec.big[dec.a..EndFrom(dec, dec.a + 1)])
    requires Digits(digits) && 0 < |digits| <= 9 && Mantissa(digits) == dec.big[dec.a]
    ensures var last := EndFrom(dec, dec.a + 1); var places := |digits| - 1 + 9 * (last - dec.a - 1);
      && Mantissa(text) == CutAfter(Int(dec.big[dec.a..last]), places, p)
      && Scale(text) == (if p < places then p else places) && (left > 0 <==> p > places)
    ensures text == digits[..1] + (if p > 0 || alternative then "." else "") + more && Digits(more)
    ensures (p > 0 ==> '.' in text) && (p == 0 ==> more == [])
  {
    hide Mantissa, Scale, Int, Normal, TenPow, Numeral, CutAfter;
    ghost var last := EndFrom(dec, dec.a + 1);
    ghost var s, w := dec.big[dec.a..last], |digits| - 1;
    text := LeadText(digits, p, alternative);
    ghost var before := text;
    PlacesOf(s, w, p);
    assert s[..1] == dec.big[dec.a..dec.a + 1];
    text, left := WriteLimbs(dec, text, dec.a + 1, p - (|digits| - 1), true, dec.a);
    more := digits[1..][..if p < w then p else w] + text[|before|..];
    assert forall c | c in before :: c in text;
  }

  method LeadText(digits: string, p: nat, alternative: bool) returns (text: string)
    requires Digits(digits) && 0 < |digits|
    ensures var m := if p < |digits| - 1 then p else |digits| - 1;
      && text == digits[..1] + (if p > 0 || alternative then "." else "") + digits[1..][..m]
      && Mantissa(text) == Mantissa(digits) / TenPow(|digits| - 1 - m) && Scale(text) == m
      && Digits(digits[1..][..m]) && (p > 0 ==> '.' in text)
  {
    hide Mantissa, Scale, TenPow;
    text := digits[..1];
    Join([], text);
    assert [] + text == text;
    ScaleEmpty();
    if p > 0 || alternative {
      PointAfter(text);
      text := text + ".";
    }
    var m := if p < |digits| - 1 then p else |digits| - 1;
    FirstPart(digits, text, m);
    text := text + digits[1..][..m];
  }

  /** The first limb's digits behind the point. */
  lemma FirstPart(digits: string, text: string, m: nat)
    requires Digits(digits) && m < |digits|
    requires Mantissa(text) == Mantissa(digits[..1]) && Scale(text) == 0 && (m > 0 ==> '.' in text)
    ensures Digits(digits[1..][..m]) && Scale(text + digits[1..][..m]) == m
    ensures Mantissa(text + digits[1..][..m]) == Mantissa(digits) / TenPow(|digits| - 1 - m)
    ensures '.' in text ==> '.' in text + digits[1..][..m]
  {
    hide Mantissa, Scale, TenPow;
    assert digits[..1 + m] == digits[..1] + digits[1..][..m];
    Join(text, digits[1..][..m]);
    Join(digits[..1], digits[1..][..m]);
    FirstDigits(digits, 1 + m);
  }

  /** Cutting behind digits of the first limb, or behind digits of the others. */
  lemma PlacesOf(s: seq<nat>, w: nat, p: nat)
    requires s != [] && Normal(s)
    ensures p >= w ==> CutAfter(Int(s), w + 9 * (|s| - 1), p) == CutAfter(Int(s), 9 * (|s| - 1), p - w)
    ensures p < w ==> CutAfter(Int(s), w + 9 * (|s| - 1), p) == s[0] / TenPow(w - p)
    ensures Int(s[..1]) == s[0] && s[0] / TenPow(0) == s[0]
  {
    hide Int, TenPow, Normal;
    IntNext(s, 0);
    IntNil(s);
    TenPowZero();
    if p < w { CutPrefix(s, 1, w - p); }
  }

  /** The exponent with its sign and at least two digits; it is read as the number it is. */
  method WriteExponent(e: int, upper: bool, ghost text: string) returns (s: string)
    requires -0x8000_0000 < e < 0x8000_0000
    ensures |s| >= 4 && s[0] == (if upper then 'E' else 'e') && ExponentIs(text + s, |text|, e)
    ensures Digits(s[2..]) && Mantissa(s[2..]) == (if e < 0 then -e else e) && s[1] == if e < 0 then '-' else '+'
  {
    hide Mantissa;
    ghost var size := if e < 0 then -e else e;
    s := IntScan.FormatUnsigned(if e < 0 then -e else e);
    SameDigits(s);
    while |s| < 2
      invariant Digits(s) && Mantissa(s) == size
      decreases 2 - |s|
    {
      LeadingZero(s);
      s := ['0'] + s;
    }
    ghost var digits := s;
    s := [if upper then 'E' else 'e', if e < 0 then '-' else '+'] + s;
    ghost var t, end := text + s, |text|;
    assert t[end..] == s && t[end + 2..] == digits;
    assert forall i | end + 2 <= i < |t| :: t[i] == digits[i - end - 2];
    assert t[end] == s[0] && t[end + 1] == s[1] && t[end + 2..|t|] == digits;
    assert IsExponent(t, end + 2, |t|, Unsigned(t, end, e));
  }

  lemma ReadsAsNumeral(text: string, point: nat, exponent: string)
    requires Numeral(text, point) && exponent != [] && (exponent[0] == 'e' || exponent[0] == 'E')
    ensures NumeralAt(text + exponent, 0, |text|)
  {
    var t := text + exponent;
    forall i | 0 <= i < |text| ensures IsDigit(t[i]) || t[i] == '.' {
      assert t[i] == text[i];
      if i < point {
        assert text[..point][i] == text[i];
      } else if i > point {
        assert text[point + 1..][i - point - 1] == text[i];
      }
    }
  }

  /** A numeral with its point behind the first digit has its decimals, and two characters more at most. */
  lemma {:induction false} NumeralLength(text: string)
    requires Numeral(text, 1)
    ensures |text| <= Scale(text) + 2
    ensures text[0] != '0' ==> Significant(text) == Scale(text) + 1 && Mantissa(text) > 0
    decreases |text|
  {
    hide Mantissa, Scale, Significant;
    var u, c := text[..|text| - 1], text[|text| - 1];
    assert text == u + [c];
    Extend(u, c);
    if |text| == 1 {
      assert u == [] && text[..1][0] == c;
      MantissaEmpty();
      ScaleEmpty();
      SignificantEmpty();
    } else {
      NumeralInit(text, u, c);
      NumeralLength(u);
    }
  }

  lemma SignificantEmpty()
    ensures Significant([]) == 0
  {
  }

  lemma NumeralInit(text: string, u: string, c: char)
    requires Numeral(text, 1) && text == u + [c] && |text| > 1
    ensures Numeral(u, 1) && u[0] == text[0] && if |u| == 1 then c == '.' else '.' in u && IsDigit(c)
  {
    assert u[..1] == text[..1];
    if |u| > 1 {
      assert u[1] == text[1];
      assert u[2..] == text[2..][..|u| - 2];
      assert text[2..][|u| - 2] == c;
    }
  }

  // ---------- the whole printer ----------

  /** `%f`: the text denotes the number rounded to `p` decimals. */
  method PrintFixed(v: nat, e2: int, precision: int, alternative: bool, long: bool)
    returns (text: string, ghost point: nat, ghost x: real, ghost n: nat, ghost lost: real, ghost k: int)
    requires if v == 0 then e2 == 0 else Representable(v, e2, long)
    ensures HalfUnitOff(DecimalValue(text), Number(v, e2), Pow(10.0, 0 - PrecisionOf(precision)),
              MostLost(Number(v, e2), e2, PrecisionOf(precision), Fixed))
    ensures Numeral(text, point) && DecimalValue(text) == Times(n as real, Pow(10.0, 0 - PrecisionOf(precision)))
    ensures Number(v, e2) == Times(x, Pow(10.0, 0 - PrecisionOf(precision))) + lost && Nearest(x, n)
    ensures 0.0 <= lost <= MostLost(Number(v, e2), e2, PrecisionOf(precision), Fixed)
    ensures e2 >= 0 || 5 + (8 - e2) / 9 <= Needed(PrecisionOf(precision)) ==> lost == 0.0 && HalfEven(x, n)
    ensures var p := PrecisionOf(precision);
      && Scale(text) == Decimals(p, FixedPlaces(k), 9)
      && (Scale(text) == p <==> p <= FixedPlaces(k) || p == FixedPlaces(k) + 9)
    ensures n > 0 ==> LastGroup(DecimalValue(text), k)
    ensures v == 0 ==> k < 0
    ensures var q := PrecisionOf(precision) / 9;
      v > 0 && n == 0 ==> k == q + if Number(v, e2) - lost < Pow(10.0, -9 * q - 9) then 1 else 0
  {
    hide Times, Pow, Numeral, DecimalValue, Number, MostLost, Nearest, HalfEven, Normal, Trimmed, Representable,
      InDecade, LastGroup, Scale;
    var dec, j, e;
    ghost var first;
    dec, j, e, first, x, n, lost := Format(v, e2, precision, Fixed, long);
    k := dec.z - dec.r - 1;
    if n > 0 { LastGroupIs(dec); }
    text, point := WriteFixed(dec, j, alternative, n);
    HalfUnit(Number(v, e2), x, n, j, lost, MostLost(Number(v, e2), e2, PrecisionOf(precision), Fixed));
  }

  /** Half a unit off at most, and on one side what limbs that were cut off are worth. */
  ghost predicate HalfUnitOff(y: real, number: real, unit: real, most: real) {
    0.0 - unit / 2.0 - most <= y - number <= unit / 2.0
  }

  lemma HalfUnit(number: real, x: real, n: nat, j: int, lost: real, most: real)
    requires number == Times(x, Pow(10.0, -j)) + lost && Nearest(x, n) && 0.0 <= lost <= most
    ensures HalfUnitOff(Times(n as real, Pow(10.0, -j)), number, Pow(10.0, -j), most)
  {
    hide Pow, Times;
    var unit := Pow(10.0, -j);
    TimesMono(2.0 * x - 1.0, 2.0 * n as real, unit);
    TimesMono(2.0 * n as real, 2.0 * x + 1.0, unit);
    TimesAdd(x, x, unit);
    TimesAdd(n as real, n as real, unit);
    TimesAdd(2.0 * x - 1.0, 1.0, unit);
    TimesAdd(2.0 * x, 1.0, unit);
    TimesOne(unit);
  }

  /** `%e`: the text with its exponent denotes the number rounded to `p` digits behind the first one. */
  method PrintScientific(v: nat, e2: int, precision: int, alternative: bool, upper: bool, long: bool)
    returns (text: string, end: nat, e: int, ghost j: int, ghost x: real, ghost n: nat, ghost lost: real, ghost k: int)
    requires if v == 0 then e2 == 0 else Representable(v, e2, long)
    ensures NumeralAt(text, 0, end) && end < |text| && ExponentIs(text, end, e) && WellWritten(text, end, e)
    ensures HalfUnitOff(Times(DecimalValue(text[..end]), Pow(10.0, e)), Number(v, e2),
              Times(Pow(10.0, 0 - PrecisionOf(precision)), Number(v, e2)),
              MostLost(Number(v, e2), e2, PrecisionOf(precision), Notation.Exponent))
    ensures Times(DecimalValue(text[..end]), Pow(10.0, e)) == Times(n as real, Pow(10.0, -j))
    ensures v > 0 ==> InDecade(PrecisionOf(precision) - j, Number(v, e2) - lost)
    ensures Number(v, e2) == Times(x, Pow(10.0, -j)) + lost && Nearest(x, n)
    ensures 0.0 <= lost <= MostLost(Number(v, e2), e2, PrecisionOf(precision), Notation.Exponent)
    ensures e2 >= 0 || 5 + (8 - e2) / 9 <= Needed(PrecisionOf(precision)) ==> lost == 0.0 && HalfEven(x, n)
    ensures var p, places := PrecisionOf(precision), if v == 0 then 0 else e + 9 * k;
      && Shown(text[..end], p, places, 18) && (Scale(text[..end]) == p <==> p <= places || p == places + 18)
    ensures n > 0 <==> v > 0
    ensures v > 0 ==> LastGroup(Times(n as real, Pow(10.0, -j)), k) && InDecade(e, Times(n as real, Pow(10.0, -j)))
    ensures end <= PrecisionOf(precision) + 20 && Scale(text[..end]) <= PrecisionOf(precision) + 18
    ensures -5070 <= e <= 5050
    ensures v > 0 ==> Significant(text[..end]) == Scale(text[..end]) + 1
  {
    hide Times, Pow, Numeral, DecimalValue, Number, MostLost, Nearest, HalfEven, Normal, Trimmed, Representable,
      InDecade;
    hide ExponentIs, NumeralAt, WellWritten, LastGroup, Scale, Significant;
    var dec, place;
    ghost var first, point;
    var p := PrecisionOf(precision);
    dec, place, e, first, x, n, lost := Format(v, e2, precision, Notation.Exponent, long);
    j := place;
    ghost var m := Scientific(dec.Printed(), p, e, first, j, n);
    k := dec.z - dec.r - 1;
    if n > 0 { LastGroupIs(dec); }
    text, point, end := WriteScientific(dec, p, e, alternative, upper, m);
    NumeralLength(text[..end]);
    assert text[..end][0] == text[0];
    ghost var number, most := Number(v, e2), MostLost(Number(v, e2), e2, p, Notation.Exponent);
    HalfUnit(number, x, n, j, lost, most);
    if v > 0 {
      UnitShare(number, lost, first, p, j);
      ExponentRange(v, e2, long, p, lost, first);
    } else {
      ZeroShown(j, p, e2, most);
    }
  }

  /** A unit of the last digit is a share of the number. */
  lemma UnitShare(number: real, lost: real, first: int, p: nat, j: int)
    requires InDecade(first, number - lost) && lost >= 0.0 && j == p - first
    ensures Pow(10.0, -j) <= Times(Pow(10.0, 0 - p), number)
  {
    hide Pow, Times;
    PowSum(0 - p, first);
    assert 0 - p + first == -j;
    TimesMono(Pow(10.0, first), number, Pow(10.0, 0 - p));
  }

  lemma ZeroShown(j: int, p: nat, e2: int, most: real)
    requires most >= 0.0
    ensures Times(0.0, Pow(10.0, -j)) == 0.0 && Number(0, e2) == 0.0
    ensures HalfUnitOff(0.0, 0.0, Times(Pow(10.0, 0 - p), Number(0, e2)), most)
  {
    hide Pow;
    NothingLeft(Pow(10.0, -j), 0, 0);
    NumberZero(e2, p, Fixed);
    TimesIs(Pow(10.0, 0 - p), 0.0);
  }

  /** The digits to write, when the round has given the next power of ten too. */
  lemma Scientific(y: real, p: nat, e: int, first: int, j: int, n: nat) returns (m: nat)
    requires y == Times(n as real, Pow(10.0, -j)) && j == p - first
    requires e == first || (n > 0 && e == first + 1 && y == Pow(10.0, e))
    ensures y == Times(m as real, Pow(10.0, e - p))
  {
    hide Times, Pow, TenPow;
    if e == first {
      m := n;
    } else {
      m := TenPow(p);
      TenPowIs(p);
      PowSum(p, e - p);
      assert p + (e - p) == e;
    }
  }

  // ---------- the number 1 ----------

  const ONE := 0x8000_0000_0000_0000

  lemma OneIs(long: bool)
    ensures Number(ONE, -28) == 1.0 && Representable(ONE, -28, long)
  {
    ThirteenBits();
    assert Pow(2.0, 2) == 4.0;
    hide Pow;
    PowAdd(2.0, 13, 13);
    PowAdd(2.0, 26, 2);
    PowAdd(2.0, -28, 28);
    PowZero(2.0);
    TimesIs(268435456.0, Pow(2.0, -28));
    Bits.RemainderIs(ONE, Bits.Pow2(64 - MantissaBits(long)), ONE / Bits.Pow2(64 - MantissaBits(long)), 0);
  }

  lemma OneGroup(k: int)
    requires LastGroup(1.0, k)
    ensures k == 0
  {
    hide GroupUnits;
    UnitGroups(1, 0);
    assert InGroups(1.0, 0);
    if InGroups(1.0, -1) {
      var m: nat :| 1.0 == GroupUnits(m, -1);
      GroupApart(1, 0, 1, m, 0);
    }
    OneLastGroup(1.0, k, 0);
  }

  lemma UnitGroups(m: nat, k: int)
    requires k == 0
    ensures GroupUnits(m, k) == m as real
  {
    PowZero(10.0);
  }

  /** With six decimals asked for, `%f` writes nine of 1. */
  method PrintOne(alternative: bool, long: bool) returns (text: string)
    ensures DecimalValue(text) == 1.0 && Scale(text) == 9
  {
    hide Times, Pow, Numeral, DecimalValue, Number, MostLost, Nearest, HalfEven, Representable, LastGroup, Scale;
    OneIs(long);
    ghost var point, x, n, lost, k;
    text, point, x, n, lost, k := PrintFixed(ONE, -28, 6, alternative, long);
    OneRounds(x, 6, lost, n, MostLost(1.0, -28, 6, Fixed), Fixed);
    OneGroup(k);
  }

  /** What is 1 up to limbs cut off is rounded to 1. */
  lemma OneRounds(x: real, j: int, lost: real, n: nat, most: real, notation: Notation)
    requires 1.0 == Times(x, Pow(10.0, -j)) + lost && 0.0 <= lost <= most && Nearest(x, n) && 6 <= j <= 7
    requires most == MostLost(1.0, -28, 6, notation)
    ensures n > 0 && Times(n as real, Pow(10.0, -j)) == 1.0
  {
    hide Times, Pow, Nearest;
    var m := TenPow(j);
    TenPowIs(j);
    PowSum(j, -j);
    PowZero(10.0);
    assert j + -j == 0;
    LittleLost(most, notation);
    PowMono(-7, -j);
    CutRight(1.0, x, j, lost, n, m);
  }

  lemma LittleLost(most: real, notation: Notation)
    requires most == MostLost(1.0, -28, 6, notation)
    ensures 4.0 * most < Pow(10.0, -7)
  {
    hide Times, Pow;
    var u := Pow(10.0, -27);
    assert Pow(10.0, 2) == 100.0 by { PowTwo(); }
    PowMono(-27, -9);
    PowAdd(10.0, -9, 2);
    TimesIs(2.0, u);
    TimesOne(u);
    TimesIs(4.0, u);
    TimesIs(Pow(10.0, -9), 100.0);
  }

  lemma PowTwo()
    ensures Pow(10.0, 2) == 100.0
  {
    assert Pow(10.0, 1) == 10.0;
  }

  /** With six digits behind the first one asked for, `%e` writes eighteen of 1. */
  method PrintOneScientific(alternative: bool, upper: bool, long: bool) returns (text: string, end: nat)
    ensures end < |text| && ExponentIs(text, end, 0) && DecimalValue(text[..end]) == 1.0 && Scale(text[..end]) == 18
  {
    hide Times, Pow, Numeral, DecimalValue, Number, MostLost, Nearest, HalfEven, Representable, LastGroup, Scale;
    hide InDecade, ExponentIs, NumeralAt, WellWritten, Significant, HalfUnitOff;
    OneIs(long);
    var e;
    ghost var j, x, n, lost, k;
    text, end, e, j, x, n, lost, k := PrintScientific(ONE, -28, 6, alternative, upper, long);
    NearOne(6 - j, lost);
    OneRounds(x, j, lost, n, MostLost(1.0, -28, 6, Notation.Exponent), Notation.Exponent);
    OneGroup(k);
    DecadeOfOne();
    OneDecade(e, 0, 1.0);
    PowAtZero(DecimalValue(text[..end]));
  }

  lemma DecadeOfOne()
    ensures InDecade(0, 1.0)
  {
    PowZero(10.0);
    assert Pow(10.0, 1) == 10.0;
  }

  lemma NearOne(first: int, lost: real)
    requires InDecade(first, 1.0 - lost) && 0.0 <= lost <= MostLost(1.0, -28, 6, Notation.Exponent)
    ensures first == 0 || first == -1
  {
    hide Pow, MostLost;
    LittleLost(MostLost(1.0, -28, 6, Notation.Exponent), Notation.Exponent);
    PowZero(10.0);
    PowMono(-7, -1);
    PowNext(10.0, -1);
    PowLess(first, 1);
    PowLess(-1, first + 1);
    PowNext(10.0, 0);
  }

  // ---------- print and read ----------

  /** A numeral with one point, an `e`, a sign and the digits of the exponent. */
  ghost predicate WellWritten(t: string, end: nat, e: int) {
    && -0x8000_0000 < e < 0x8000_0000 && 0 < end && end + 2 < |t| && (t[end] == 'e' || t[end] == 'E')
    && (forall i | 0 <= i < end && i != 1 :: IsDigit(t[i])) && (end > 1 ==> t[1] == '.')
    && Digits(t[end + 2..]) && Mantissa(t[end + 2..]) == (if e < 0 then -e else e)
    && t[end + 1] == if e < 0 then '-' else '+'
  }

  lemma WrittenWell(text: string, point: nat, exponent: string, e: int)
    requires Numeral(text, point) && point == 1 && |exponent| > 2 && (exponent[0] == 'e' || exponent[0] == 'E')
    requires -0x8000_0000 < e < 0x8000_0000 && Digits(exponent[2..])
    requires Mantissa(exponent[2..]) == (if e < 0 then -e else e) && exponent[1] == if e < 0 then '-' else '+'
    ensures WellWritten(text + exponent, |text|, e)
  {
    hide Mantissa;
    var t, end := text + exponent, |text|;
    assert t[end + 2..] == exponent[2..];
    forall i | 0 <= i < end && i != 1 ensures IsDigit(t[i]) {
      assert t[i] == text[i];
      if i > 1 { assert text[2..][i - 2] == text[i]; } else { assert text[..1][0] == text[0]; }
    }
  }

  /** The reader ends where the writer did, and finds the same exponent. */
  lemma ReadsSame(t: string, end: nat, e: int, end': nat, e': int)
    requires WellWritten(t, end, e) && NumeralAt(t, 0, end') && HasDigit(t[..end'])
    ensures end' == end && ExponentAt(t, end) && DigitAt(t, ExponentStart(t, end)) &&
      (ExponentIs(t, end, e') ==> e' == e)
  {
    hide Mantissa;
    assert t[0..end'] == t[..end'];
    assert end' > 0 && (end' == 1 ==> t[0..end'] == [t[0]]);
    assert t[end + 2..][0] == t[end + 2];
    if ExponentIs(t, end, e') {
      var stop :| IsExponent(t, ExponentStart(t, end), stop, Unsigned(t, end, e'));
      assert forall i | end + 2 <= i < |t| :: IsDigit(t[end + 2..][i - end - 2]) && t[end + 2..][i - end - 2] == t[i];
      assert stop == |t| && t[end + 2..stop] == t[end + 2..];
    }
  }

  lemma StartsWithDigit(t: string, end: nat, e: int, end': nat)
    requires WellWritten(t, end, e) && NumeralAt(t, 0, end')
    ensures HasDigit(t[0..end']) && t[0..end'] == t[..end']
  {
    assert end' > 0;
    assert IsDigit(t[0..end'][0]);
  }

  lemma ZeroIff(u: string, e: int, n: nat, j: int)
    requires Times(DecimalValue(u), Pow(10.0, e)) == Times(n as real, Pow(10.0, -j))
    ensures Mantissa(u) == 0 <==> n == 0
  {
    hide Pow, Times, Mantissa, Scale;
    var m := Mantissa(u) as real;
    TimesIs(m, Pow(10.0, 0 - Scale(u)));
    TimesIs(DecimalValue(u), Pow(10.0, e));
    TimesIs(n as real, Pow(10.0, -j));
    PosProduct(m, Pow(10.0, 0 - Scale(u)));
    PosProduct(DecimalValue(u), Pow(10.0, e));
    PosProduct(n as real, Pow(10.0, -j));
  }

  /** Thirteen bits are less than four digits. */
  lemma {:induction false} BitsDigits(k: nat)
    ensures Pow(2.0, 13 * k) <= Pow(10.0, 4 * k)
    ensures Pow(2.0, -13 * k) >= Pow(10.0, -4 * k)
  {
    if k == 0 {
      PowZero(2.0);
      PowZero(10.0);
    } else {
      ThirteenBits();
      BitsDigits(k - 1);
      hide Pow;
      PowAdd(2.0, 13 * k - 13, 13);
      PowAdd(10.0, 4 * k - 4, 4);
      PowAdd(2.0, -13 * k, 13);
      PowAdd(10.0, -4 * k, 4);
      assert -13 * k + 13 == -13 * (k - 1) && -4 * k + 4 == -4 * (k - 1);
      TimesIs(Pow(2.0, 13 * k - 13), 8192.0);
      TimesIs(Pow(10.0, 4 * k - 4), 10000.0);
      TimesIs(Pow(2.0, -13 * k), 8192.0);
      TimesIs(Pow(10.0, -4 * k), 10000.0);
    }
  }

  lemma ThirteenBits()
    ensures Pow(2.0, 13) == 8192.0 && Pow(10.0, 4) == 10000.0
  {
    assert Pow(2.0, 4) == 16.0;
    assert Pow(2.0, 8) == 256.0;
    assert Pow(2.0, 12) == 4096.0;
  }

  /** The exponents of the numbers of both types. */
  lemma ExponentRange(v: nat, e2: int, long: bool, p: nat, lost: real, first: int)
    requires Representable(v, e2, long) && InDecade(first, Number(v, e2) - lost)
    requires 0.0 <= lost <= MostLost(Number(v, e2), e2, p, Notation.Exponent)
    ensures -5066 <= first <= 5043
  {
    hide Times, Pow;
    NumberRange(v, e2);
    var number := Number(v, e2);
    SmallLoss(number, e2, p);
    BitsDigits(1261);
    BitsDigits(1266);
    TwoMono(29 + e2, 13 * 1261);
    TwoMono(-13 * 1266, 27 + e2);
    PowLess(first, 5044);
    PowLess(-5064, first + 1);
  }

  lemma {:induction false} TwoMono(m: int, n: int)
    requires m <= n
    ensures Pow(2.0, m) <= Pow(2.0, n)
    decreases n - m
  {
    if m < n {
      TwoMono(m, n - 1);
      PowNext(2.0, n - 1);
      hide Pow;
      TimesIs(2.0, Pow(2.0, n - 1));
    }
  }

  lemma NumberRange(v: nat, e2: int)
    requires 0x8000_0000_0000_0000 <= v < 0x1_0000_0000_0000_0000
    ensures Number(v, e2) < Pow(2.0, 29 + e2) && Number(v, e2) >= 2.0 * Pow(2.0, 27 + e2) > 0.0
  {
    hide Pow, Times;
    var x, w := v as real / 34359738368.0, Pow(2.0, e2);
    TwoPowers(e2);
    TimesOrder(x, 536870912.0, w);
    TimesMono(268435456.0, x, w);
  }

  lemma TwoPowers(e2: int)
    ensures Pow(2.0, 29 + e2) == Times(536870912.0, Pow(2.0, e2))
    ensures 2.0 * Pow(2.0, 27 + e2) == Times(268435456.0, Pow(2.0, e2))
  {
    ThirteenBits();
    assert Pow(2.0, 1) == 2.0;
    hide Pow;
    PowAdd(2.0, 13, 13);
    PowAdd(2.0, 26, 1);
    PowAdd(2.0, 27, 1);
    PowAdd(2.0, 28, 1);
    PowAdd(2.0, e2, 29);
    PowAdd(2.0, e2, 27);
    TimesIs(536870912.0, Pow(2.0, e2));
    TimesIs(268435456.0, Pow(2.0, e2));
  }

  /** What limbs cut off are worth is less than half of the number. */
  lemma SmallLoss(number: real, e2: int, p: nat)
    requires number >= 0.0 && e2 >= -16473
    ensures 2.0 * MostLost(number, e2, p, Notation.Exponent) <= number
  {
    hide Pow, Times;
    var k, u := if e2 <= 0 then ((8 - e2) / 9) as real else 0.0, Pow(10.0, 0 - p - 21);
    PowMono(0 - p - 21, -4);
    PowSum(-4, 4);
    PowZero(10.0);
    ThirteenBits();
    TimesIs(Pow(10.0, -4), 10000.0);
    TimesMono(u, 0.0001, number);
    TimesIs(0.0001, number);
    NonNeg(u, number);
    TimesMono(k, 1832.0, Times(u, number));
    TimesIs(1832.0, Times(u, number));
  }

  /** When the ring has room for every digit: for both types up to 2500 of them behind the point, for doubles up to
      about 15000, and in general as many as the exponent leaves room for. */
  predicate AllKept(p: nat, emin: int, e: int) {
    p <= 2500 || Roomy(p + 20, emin) || RoomFor((p + 19) / 9 + 1, e + 1)
  }

  lemma KeptAll(text: string, p: nat, emin: int, e: int)
    requires |text| <= p + 20 && Significant(text) == Scale(text) + 1 && Scale(text) <= p + 18 && -5070 <= e <= 5050
    requires AllKept(p, emin, e)
    ensures Roomy(|text|, emin) || RoomFor(Significant(text) / 9 + 1, PointAt(text, e))
  {
    hide Significant, Scale;
  }

  /** Printing in scientific notation and reading back: the reader is given exactly the rounded number while its
      ring has room for the digits, and in any case one that near. */
  method PrintAndRead(v: nat, e2: int, precision: int, alternative: bool, upper: bool, long: bool, bits: nat,
      emin: int, pok: bool, s: Scaler)
    returns (text: string, r: Scan, ghost j: int, ghost x: real, ghost n: nat, ghost lost: real, ghost e: int)
    requires (if v == 0 then e2 == 0 else Representable(v, e2, long)) && emin < 0 && s.x.Length == KMAX && !s.truncated
    modifies s, s.x
    ensures Number(v, e2) == Times(x, Pow(10.0, -j)) + lost && Nearest(x, n)
    ensures 0.0 <= lost <= MostLost(Number(v, e2), e2, PrecisionOf(precision), Notation.Exponent)
    ensures e2 >= 0 || 5 + (8 - e2) / 9 <= Needed(PrecisionOf(precision)) ==> lost == 0.0 && HalfEven(x, n)
    ensures !r.NoDigits? && !r.BadExponent? && (r.Zero? <==> n == 0)
    ensures if v > 0 then n > 0 && InDecade(e, Times(n as real, Pow(10.0, -j))) else n == 0
    ensures r.Overflow? ==> Times(n as real, Pow(10.0, -j)) >= Pow(10.0, -emin / 2)
    ensures r.Underflow? ==> Times(n as real, Pow(10.0, -j)) <= Pow(10.0, emin - 2 * LDBL_MANT_DIG)
    ensures r.Small? ==> Times(n as real, Pow(10.0, -j)) == Times(r.n as real, Pow(10.0, r.tens))
    ensures r.Scaled? ==> s.Good() && Rest(s.Limbs()) >= 0.0
    ensures r.Scaled? && AllKept(PrecisionOf(precision), emin, e) ==>
      Times(n as real, Pow(10.0, -j)) == Times(r.significand as real + Rest(s.Limbs()), Pow(2.0, r.e2))
    ensures r.Scaled? ==>
      Near(Times(n as real, Pow(10.0, -j)), Times(r.significand as real + Rest(s.Limbs()), Pow(2.0, r.e2)),
        Steps(e + 1))
  {
    hide Times, Pow, Numeral, DecimalValue, Number, MostLost, Nearest, HalfEven, Normal, Trimmed, Representable,
      InDecade;
    hide ExponentIs, NumeralAt, WellWritten, Mantissa, Scale, Significant, Near, Steps, Rest, Top, HasDigit, Ring;
    hide Roomy, RoomFor, ExponentAt, DigitAt, ExponentStart, Frac, Shown, AllKept, LastGroup;
    var end, e10;
    ghost var end', e', k;
    text, end, e10, j, x, n, lost, k := PrintScientific(v, e2, precision, alternative, upper, long);
    e := e10;
    r, end', e' := ReadFloat(text, 0, bits, emin, pok, s);
    StartsWithDigit(text, end, e, end');
    ReadsSame(text, end, e, end', e');
    ZeroIff(text[..end], e, n, j);
    if v > 0 {
      PointIs(text[..end], e);
      if AllKept(PrecisionOf(precision), emin, e) {
        KeptAll(text[..end], PrecisionOf(precision), emin, e);
      }
    }
  }

  lemma PointIs(text: string, e: int)
    requires Significant(text) == Scale(text) + 1
    ensures PointAt(text, e) == e + 1
  {
  }
}
