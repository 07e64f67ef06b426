/** Reading integers in any base from a text, and the printers that write them. */
module IntScan {
  import opened Bits

  const UINT_MAX := 0xFFFF_FFFF
  const ULLONG_MAX := WORD - 1

  // ---------- digits ----------

  const INVALID := 255

  /** The value of a character as a digit; letters of either case continue after 9. */
  function DigitOf(c: char): (d: nat)
    ensures d < 36 || d == INVALID
  {
    if '0' <= c <= '9' then c as int - '0' as int
    else if 'A' <= c <= 'Z' then c as int - 'A' as int + 10
    else if 'a' <= c <= 'z' then c as int - 'a' as int + 10
    else INVALID
  }

  /** The end of the text is no digit. */
  function DigitAt(t: string, p: nat): nat { if p < |t| then DigitOf(t[p]) else INVALID }

  function ValueIn(t: string, base: nat): nat {
    if t == [] then 0 else Mul(base, ValueIn(t[..|t| - 1], base)) + DigitOf(t[|t| - 1])
  }

  lemma ValueEmpty(base: nat)
    ensures ValueIn([], base) == 0
  {
  }

  lemma ValueNext(t: string, s: nat, p: nat, base: nat)
    requires s <= p < |t|
    ensures ValueIn(t[s..p + 1], base) == Mul(base, ValueIn(t[s..p], base)) + DigitOf(t[p])
  {
    assert t[s..p + 1][..p - s] == t[s..p] && t[s..p + 1][p - s] == t[p];
  }

  /** More digits make no smaller number. */
  lemma {:induction false} ValueGrows(t: string, s: nat, p: nat, q: nat, base: nat)
    requires s <= p <= q <= |t| && base >= 1
    ensures ValueIn(t[s..p], base) <= ValueIn(t[s..q], base)
    decreases q - p
  {
    if p < q {
      ValueGrows(t, s, p, q - 1, base);
      ValueNext(t, s, q - 1, base);
      MulMono(1, base, ValueIn(t[s..q - 1], base));
    }
  }

  /** The first position from `p` on without a digit of the base. */
  function RunEnd(t: string, p: nat, base: nat): (q: nat)
    ensures p <= q && (p <= |t| ==> q <= |t|)
    ensures DigitAt(t, q) >= base || q >= |t|
    ensures forall i | p <= i < q :: DigitAt(t, i) < base
    decreases |t| - p
  {
    if p < |t| && DigitAt(t, p) < base then RunEnd(t, p + 1, base) else p
  }

  function SkipSpaces(t: string, p: nat): (q: nat)
    ensures p <= q && (p <= |t| ==> q <= |t|)
    decreases |t| - p
  {
    if p < |t| && (t[p] == ' ' || t[p] == '\t') then SkipSpaces(t, p + 1) else p
  }

  // ---------- what is read ----------

  datatype Error = NoError | InvalidBase | OutOfRange

  /** The result, the error number, where reading stopped, and whether the text matched. */
  datatype Scanned = Scanned(value: U64, error: Error, end: nat, matched: bool)

  predicate IsSign(t: string, p: nat) { p < |t| && (t[p] == '+' || t[p] == '-') }

  predicate IsX(t: string, p: nat) { p < |t| && (t[p] == 'x' || t[p] == 'X') }

  function Negate(v: U64): U64 { (WORD - v) % WORD }

  /** A value, whatever its size, against the limit: an even limit is that of a signed type. */
  function Limited(v: nat, neg: bool, lim: U64): (U64, Error) {
    if lim % 2 == 1 then
      if v <= lim then (if neg then Negate(v) else v, NoError) else (lim, OutOfRange)
    else if !neg then
      if v < lim then (v, NoError) else ((lim - 1) % WORD, OutOfRange)
    else if v <= lim then (Negate(v), NoError)
    else (if v < WORD then lim else Negate(lim), OutOfRange)
  }

  /** The digits from `s` on in a base that is settled. */
  function ScanDigits(t: string, s: nat, base: nat, neg: bool, lim: U64): Scanned
    requires s <= |t|
  {
    var e := RunEnd(t, s, base);
    var (v, error) := Limited(ValueIn(t[s..e], base), neg, lim);
    Scanned(v, error, e, true)
  }

  /** White space, a sign, a prefix that may settle the base, and digits. */
  function Scan(t: string, pos: nat, base: nat, pok: bool, lim: U64): Scanned
    requires pos <= |t|
  {
    if base > 36 || base == 1 then Scanned(0, InvalidBase, pos, true)
    else
      var p := SkipSpaces(t, pos);
      var neg := IsSign(t, p) && t[p] == '-';
      var s := if IsSign(t, p) then p + 1 else p;
      if (base == 0 || base == 16) && s < |t| && t[s] == '0' then
        if IsX(t, s + 1) then
          if DigitAt(t, s + 2) < 16 then ScanDigits(t, s + 2, 16, neg, lim)
          else Scanned(0, NoError, if pok then s + 1 else s + 2, pok)
        else ScanDigits(t, s, if base == 0 then 8 else base, neg, lim)
      else
        var b := if base == 0 then 10 else base;
        if DigitAt(t, s) >= b then Scanned(0, InvalidBase, s, false) else ScanDigits(t, s, b, neg, lim)
  }

  // ---------- the accumulators ----------

  predicate IsPowerOfTwo(base: nat) { base in {2, 4, 8, 16, 32} }

  /** The table that turns a power of two into its exponent. */
  function ShiftOf(base: nat): nat
    requires 2 <= base <= 36
  {
    [0, 1, 2, 4, 7, 3, 6, 5][23 * base / 32 % 8]
  }

  lemma ShiftIs(base: nat)
    requires 2 <= base <= 36 && IsPowerOfTwo(base)
    ensures Pow2(ShiftOf(base)) == base
  {
    assert Pow2(1) == 2 && Pow2(2) == 4 && Pow2(3) == 8 && Pow2(4) == 16 && Pow2(5) == 32;
  }

  /** Digits up to `p` are in `y`; the next one, if there is one, would not fit. */
  ghost predicate Full(t: string, s: nat, p: nat, base: nat, y: nat) {
    s <= p <= |t| && y == ValueIn(t[s..p], base) && y < WORD
    && (forall i | s <= i < p :: DigitAt(t, i) < base)
    && (DigitAt(t, p) < base ==> p < |t| && Mul(base, y) + DigitOf(t[p]) >= WORD)
  }

  /** Up to this the loops in 32 bits take another digit. */
  function FirstMost(base: nat): nat {
    if base == 10 then UINT_MAX / 10 - 1 else if IsPowerOfTwo(base) then UINT_MAX / 32 else UINT_MAX / 36 - 1
  }

  /** A digit certainly fits: the largest one of the largest base of its kind does. */
  lemma FirstMostIs(x: nat, base: nat)
    requires 2 <= base <= 36
    ensures var b := if base == 10 then 10 else if base in {2, 4, 8, 16, 32} then 32 else 36;
      x <= FirstMost(base) <==> b * x + b - 1 <= 0xFFFF_FFFF
  {
  }

  /** Two loops: one in 32 bits as long as a digit certainly fits, one in 64 bits. */
  method Accumulate(t: string, s: nat, base: nat) returns (y: U64, p: nat)
    requires s <= |t| && 2 <= base <= 36
    ensures Full(t, s, p, base, y)
  {
    hide ValueIn, Mul;
    var most := FirstMost(base);
    var x := 0;
    p := s;
    assert t[s..s] == [];
    ValueEmpty(base);
    while DigitAt(t, p) < base && x <= most
      invariant s <= p <= |t| && x == ValueIn(t[s..p], base) && x <= UINT_MAX
      invariant forall i | s <= i < p :: DigitAt(t, i) < base
      decreases |t| - p
    {
      ValueNext(t, s, p, base);
      Fits32(x, base, DigitOf(t[p]));
      x := Mul(base, x) + DigitOf(t[p]);
      p := p + 1;
    }
    y := x;
    while DigitAt(t, p) < base && HasRoom(y, base, DigitAt(t, p))
      invariant s <= p <= |t| && y == ValueIn(t[s..p], base)
      invariant forall i | s <= i < p :: DigitAt(t, i) < base
      decreases |t| - p
    {
      ValueNext(t, s, p, base);
      RoomIs(y, base, DigitOf(t[p]));
      y := Mul(base, y) + DigitOf(t[p]);
      p := p + 1;
    }
    if DigitAt(t, p) < base { RoomIs(y, base, DigitOf(t[p])); }
  }

  /** The two tests of the 64-bit loops: a shift for powers of two, a quotient and a difference otherwise. */
  predicate HasRoom(y: U64, base: nat, d: nat)
    requires 2 <= base <= 36 && d < base
  {
    if IsPowerOfTwo(base) then y <= High(ULLONG_MAX, ShiftOf(base))
    else y <= ULLONG_MAX / base && Mul(base, y) <= ULLONG_MAX - d
  }

  lemma Fits32(x: nat, base: nat, d: nat)
    requires 2 <= base <= 36 && d < base
    requires x <= FirstMost(base)
    ensures Mul(base, x) + d <= UINT_MAX
  {
    if base == 10 {
    } else if IsPowerOfTwo(base) {
      MulMono(base, 32, x);
    } else {
      MulMono(base, 36, x);
    }
  }

  /** Both tests say exactly whether one more digit fits in 64 bits. */
  lemma RoomIs(y: U64, base: nat, d: nat)
    requires 2 <= base <= 36 && d < base
    ensures HasRoom(y, base, d) <==> Mul(base, y) + d < WORD
  {
    hide Pow2, ShiftOf, Mul;
    if IsPowerOfTwo(base) {
      ShiftIs(base);
      RoomOfPower(y, base, d);
    } else {
      RoomOfOther(y, base, d);
    }
  }

  lemma RoomOfPower(y: U64, base: nat, d: nat)
    requires IsPowerOfTwo(base) && d < base
    ensures y <= ULLONG_MAX / base <==> Mul(base, y) + d < WORD
  {
    if base == 2 {
    } else if base == 4 {
    } else if base == 8 {
    } else if base == 16 {
    } else {
      assert base == 32;
    }
  }

  lemma RoomOfOther(y: U64, base: nat, d: nat)
    requires 2 <= base && d < base
    ensures y <= ULLONG_MAX / base && Mul(base, y) <= ULLONG_MAX - d <==> Mul(base, y) + d < WORD
  {
    hide Mul;
    var q, rest := ULLONG_MAX / base, ULLONG_MAX % base;
    QuotientIs(ULLONG_MAX, base);
    if y > q { BeyondQuotient(y, q, rest, base); }
  }

  lemma QuotientIs(m: nat, base: nat)
    requires base >= 1
    ensures m / base >= 0 && m == Mul(base, m / base) + m % base
  {
    DivSmall(m, base);
  }

  lemma BeyondQuotient(y: nat, q: nat, rest: nat, base: nat)
    requires y > q && rest < base
    ensures Mul(base, y) > Mul(base, q) + rest
  {
    MulMono(q + 1, y, base);
  }

  // ---------- the scanner ----------

  lemma {:induction false} RunIs(t: string, s: nat, p: nat, base: nat)
    requires s <= p <= |t| && base <= 36 && (forall i | s <= i < p :: DigitAt(t, i) < base)
    ensures RunEnd(t, s, base) == RunEnd(t, p, base)
    ensures DigitAt(t, p) >= base ==> RunEnd(t, s, base) == p
    decreases p - s
  {
    if s < p { RunIs(t, s + 1, p, base); }
  }

  /** Digits that do not fit, and the limit. */
  method Finish(t: string, s: nat, base: nat, neg0: bool, lim: U64) returns (r: Scanned)
    requires s <= |t| && 2 <= base <= 36
    ensures r == ScanDigits(t, s, base, neg0, lim)
  {
    hide ValueIn, Mul, RunEnd;
    var neg, error := neg0, NoError;
    var y, p := Accumulate(t, s, base);
    RunIs(t, s, p, base);
    if DigitAt(t, p) < base {
      ValueNext(t, s, p, base);
      RunEndBehind(t, p, base);
      ValueGrows(t, s, p + 1, RunEnd(t, s, base), base);
      p := SkipDigits(t, p, base);
      error := OutOfRange;
      y := lim;
      if lim % 2 == 1 {
        neg := false;
      }
    }
    if y >= lim {
      if lim % 2 == 0 && !neg {
        return Scanned((lim - 1) % WORD, OutOfRange, p, true);
      } else if y > lim {
        return Scanned(lim, OutOfRange, p, true);
      }
    }
    r := Scanned(if neg then Negate(y) else y, error, p, true);
  }

  lemma RunEndBehind(t: string, p: nat, base: nat)
    requires p < |t| && DigitAt(t, p) < base
    ensures RunEnd(t, p, base) >= p + 1
  {
  }

  method SkipDigits(t: string, p0: nat, base: nat) returns (p: nat)
    requires p0 <= |t| && base <= 36
    ensures p == RunEnd(t, p0, base)
  {
    p := p0;
    while DigitAt(t, p) < base
      invariant p0 <= p <= |t| && RunEnd(t, p0, base) == RunEnd(t, p, base)
      decreases |t| - p
    {
      p := p + 1;
    }
  }

  method IntScan(t: string, pos: nat, base0: nat, pok: bool, lim: U64) returns (r: Scanned)
    requires pos <= |t|
    ensures r == Scan(t, pos, base0, pok, lim)
  {
    hide ScanDigits, RunEnd;
    var base := base0;
    if base > 36 || base == 1 {
      return Scanned(0, InvalidBase, pos, true);
    }
    var p := pos;
    while p < |t| && (t[p] == ' ' || t[p] == '\t')
      invariant pos <= p <= |t| && SkipSpaces(t, pos) == SkipSpaces(t, p)
    {
      p := p + 1;
    }
    var neg := false;
    if IsSign(t, p) {
      neg := t[p] == '-';
      p := p + 1;
    }
    if (base == 0 || base == 16) && p < |t| && t[p] == '0' {
      ghost var zero := p;
      p := p + 1;
      if IsX(t, p) {
        p := p + 1;
        if DigitAt(t, p) >= 16 {
          return Scanned(0, NoError, if pok then p - 1 else p, pok);
        }
        base := 16;
      } else {
        if base == 0 {
          base := 8;
        }
        LeadingZero(t, zero, base, neg, lim);
      }
    } else {
      if base == 0 {
        base := 10;
      }
      if DigitAt(t, p) >= base {
        return Scanned(0, InvalidBase, p, false);
      }
    }
    r := Finish(t, p, base, neg, lim);
  }

  /** Whether the leading 0 is read as a digit makes no difference. */
  lemma LeadingZero(t: string, s: nat, base: nat, neg: bool, lim: U64)
    requires s < |t| && t[s] == '0' && 2 <= base <= 36
    ensures ScanDigits(t, s + 1, base, neg, lim) == ScanDigits(t, s, base, neg, lim)
  {
    var e := RunEnd(t, s + 1, base);
    assert RunEnd(t, s, base) == e;
    DropZero(t, s, e, base);
  }

  lemma {:induction false} DropZero(t: string, s: nat, e: nat, base: nat)
    requires s < e <= |t| && t[s] == '0'
    ensures ValueIn(t[s..e], base) == ValueIn(t[s + 1..e], base)
    decreases e
  {
    hide ValueIn, Mul;
    if e == s + 1 {
      OneZero(t, s, base);
    } else {
      DropZero(t, s, e - 1, base);
      ValueNext(t, s, e - 1, base);
      ValueNext(t, s + 1, e - 1, base);
    }
  }

  lemma OneZero(t: string, s: nat, base: nat)
    requires s < |t| && t[s] == '0'
    ensures ValueIn(t[s..s + 1], base) == ValueIn(t[s + 1..s + 1], base)
  {
    ValueNext(t, s, s, base);
    assert t[s..s] == [] && t[s + 1..s + 1] == [];
    MulTwice(0, base);
    assert Mul(base, 0) == 0;
  }

  // ---------- the printers ----------

  /** Digits of a base, no leading 0, the empty text for 0. */
  ghost predicate Written(s: string, v: nat, base: nat) {
    && ValueIn(s, base) == v && (forall i | 0 <= i < |s| :: DigitOf(s[i]) < base)
    && (v == 0 ==> s == []) && (s != [] ==> s[0] != '0')
  }

  /** Digits already written behind those of `v`. */
  ghost predicate Partly(s: string, v: nat, all: nat, base: nat) {
    && (forall i | 0 <= i < |s| :: DigitOf(s[i]) < base) && (v == 0 && s != [] ==> s[0] != '0')
    && Mul(v, Power(base, |s|)) + ValueIn(s, base) == all && (all == 0 ==> s == [])
  }

  function Power(b: nat, n: nat): nat { if n == 0 then 1 else Mul(b, Power(b, n - 1)) }

  lemma {:induction false} ValueCons(c: char, s: string, base: nat)
    ensures ValueIn([c] + s, base) == Mul(DigitOf(c), Power(base, |s|)) + ValueIn(s, base)
    decreases |s|
  {
    if s == [] {
      assert ([c] + s)[..0] == [] && Mul(base, 0) == 0;
    } else {
      var t, x := s[..|s| - 1], s[|s| - 1];
      assert ([c] + s)[..|s|] == [c] + t;
      ValueCons(c, t, base);
      var d, w, v := DigitOf(c), Power(base, |t|), ValueIn(t, base);
      assert base * (d * w + v) == d * (base * w) + base * v by { Spread(base, d, w, v); }
    }
  }

  lemma Spread(b: nat, d: nat, w: nat, v: nat)
    ensures b * (d * w + v) == d * (b * w) + b * v
  {
  }

  /** One more digit in front. */
  lemma WriteDigit(s: string, v: nat, q: nat, d: nat, all: nat, base: nat, c: char)
    requires Partly(s, v, all, base) && v > 0 && 2 <= base <= 36
    requires v == Mul(base, q) + d && d == DigitOf(c) < base && (q == 0 ==> c != '0')
    ensures Partly([c] + s, q, all, base)
  {
    hide ValueIn, Power;
    ValueCons(c, s, base);
    var w := Power(base, |s|);
    PowerNext(base, [c] + s);
    Split(v, base, q, d, w);
    if all == 0 { PowerPositive(base, |s|); MulMono(1, v, w); }
  }

  lemma PowerNext(base: nat, s: string)
    requires s != []
    ensures Power(base, |s|) == Mul(base, Power(base, |s| - 1))
  {
  }

  lemma Split(v: nat, base: nat, q: nat, d: nat, w: nat)
    requires v == Mul(base, q) + d
    ensures Mul(v, w) == Mul(q, Mul(base, w)) + Mul(d, w)
  {
    assert (base * q + d) * w == base * q * w + d * w;
  }

  lemma {:induction false} PowerPositive(b: nat, n: nat)
    requires b >= 1
    ensures Power(b, n) >= 1
  {
    if n > 0 {
      PowerPositive(b, n - 1);
      MulMono(1, b, Power(b, n - 1));
    }
  }

  function DigitChar(d: nat): (c: char)
    requires d < 16
    ensures DigitOf(c) == d && (d > 0 ==> c != '0') && !('A' <= c <= 'Z')
  {
    "0123456789abcdef"[d]
  }

  function UpperDigitChar(d: nat): (c: char)
    requires d < 16
    ensures DigitOf(c) == d && (d > 0 ==> c != '0') && !('a' <= c <= 'z')
  {
    "0123456789ABCDEF"[d]
  }

  lemma PartlyStart(v: nat, base: nat)
    ensures Partly([], v, v, base)
  {
    assert Power(base, 0) == 1 && v * 1 == v;
  }

  lemma PartlyEnd(s: string, v: nat, base: nat)
    requires Partly(s, 0, v, base)
    ensures Written(s, v, base)
  {
    assert Mul(0, Power(base, |s|)) == 0;
  }

  /** Decimal digits, in 64 bits as long as the value needs them and in 32 bits after that. */
  method FormatUnsigned(value0: U64) returns (s: string)
    ensures Written(s, value0, 10)
  {
    hide Partly, Written;
    s := "";
    var value: nat := value0;
    PartlyStart(value, 10);
    while value > UINT_MAX
      invariant Partly(s, value, value0, 10)
    {
      WriteDigit(s, value, value / 10, value % 10, value0, 10, DigitChar(value % 10));
      s := [DigitChar(value % 10)] + s;
      value := value / 10;
    }
    var y: nat := value;
    while y >= 10
      invariant Partly(s, y, value0, 10)
    {
      WriteDigit(s, y, y / 10, y % 10, value0, 10, DigitChar(y % 10));
      s := [DigitChar(y % 10)] + s;
      y := y / 10;
    }
    if y > 0 {
      WriteDigit(s, y, 0, y, value0, 10, DigitChar(y));
      s := [DigitChar(y)] + s;
    }
    PartlyEnd(s, value0, 10);
  }

  method FormatHex(x0: U64, lower: bool) returns (s: string)
    ensures Written(s, x0, 16)
    ensures forall c | c in s :: if lower then !('A' <= c <= 'Z') else !('a' <= c <= 'z')
  {
    hide Partly, Written;
    s := "";
    var x: nat := x0;
    PartlyStart(x, 16);
    while x > 0
      invariant Partly(s, x, x0, 16)
      invariant forall c | c in s :: if lower then !('A' <= c <= 'Z') else !('a' <= c <= 'z')
    {
      var c := if lower then DigitChar(x % 16) else UpperDigitChar(x % 16);
      WriteDigit(s, x, x / 16, x % 16, x0, 16, c);
      s := [c] + s;
      x := x / 16;
    }
    PartlyEnd(s, x0, 16);
  }

  method FormatOctal(x0: U64) returns (s: string)
    ensures Written(s, x0, 8)
  {
    hide Partly, Written;
    s := "";
    var x: nat := x0;
    PartlyStart(x, 8);
    while x > 0
      invariant Partly(s, x, x0, 8)
    {
      WriteDigit(s, x, x / 8, x % 8, x0, 8, DigitChar(x % 8));
      s := [DigitChar(x % 8)] + s;
      x := x / 8;
    }
    PartlyEnd(s, x0, 8);
  }

  // ---------- reading back what was written ----------

  /** Reading what a printer wrote gives the number back and stops right behind it; only 0, for
      which the printers write nothing, is not read. */
  lemma ReadsBack(s: string, v: U64, rest: string, base: nat, pok: bool)
    requires base in {8, 10, 16} && Written(s, v, base) && DigitAt(rest, 0) >= base
    ensures v > 0 ==> Scan(s + rest, 0, base, pok, ULLONG_MAX) == Scanned(v, NoError, |s|, true)
    ensures v == 0 ==> s == []
  {
    hide Scan, RunEnd, ValueIn, DigitAt, DigitOf;
    ValueEmpty(base);
    if v > 0 {
      RunAt(s, rest, base);
      ScanStarts(s + rest, base, pok);
      RunIs(s + rest, 0, |s|, base);
    }
  }

  lemma RunAt(s: string, rest: string, base: nat)
    requires s != [] && (forall i | 0 <= i < |s| :: DigitOf(s[i]) < base)
    ensures var t := s + rest;
      && t[0] == s[0] && DigitOf(t[0]) < base && (forall i | 0 <= i < |s| :: DigitAt(t, i) < base)
      && DigitAt(t, |s|) == DigitAt(rest, 0) && t[0..|s|] == s
  {
    hide DigitOf;
    var t := s + rest;
    assert forall i | 0 <= i < |s| :: DigitAt(t, i) == DigitOf(s[i]);
  }

  /** A text that begins with a digit other than 0 has neither spaces nor a sign nor a prefix. */
  lemma ScanStarts(t: string, base: nat, pok: bool)
    requires t != [] && 2 <= base <= 36 && DigitOf(t[0]) < base && t[0] != '0'
    ensures Scan(t, 0, base, pok, ULLONG_MAX) == ScanDigits(t, 0, base, false, ULLONG_MAX)
  {
    hide ScanDigits;
  }

  // ---------- signs, spaces and prefixes ----------

  /** The digits by their character codes: 0 to 9, and letters of either case for 10 to 35; nothing else is one. */
  lemma DigitsAre(c: char)
    ensures var n := c as int;
      && (48 <= n < 58 ==> DigitOf(c) == n - 48) && (65 <= n < 91 ==> DigitOf(c) == n - 55)
      && (97 <= n < 123 ==> DigitOf(c) == n - 87)
      && (DigitOf(c) < 36 <==> 48 <= n < 58 || 65 <= n < 91 || 97 <= n < 123)
  {
  }

  /** What may stand before digits of the base `b` when the base asked for is `base`. */
  predicate Prefix(prefix: string, base: nat, b: nat, s: string, rest: string)
    requires s != []
  {
    && 2 <= b <= 36
    && match prefix
       case "" => if base == 0 then b == 10 && s[0] != '0'
                  else b == base && (b == 16 ==> s != "0" || rest == "" || (rest[0] != 'x' && rest[0] != 'X'))
       case "0" => base == 0 && b == 8
       case "0x" => base in {0, 16} && b == 16
       case "0X" => base in {0, 16} && b == 16
       case _ => false
  }

  predicate Blank(t: string) { forall i | 0 <= i < |t| :: t[i] == ' ' || t[i] == '\t' }

  lemma {:induction false} Skips(t: string, p: nat, q: nat)
    requires p <= q <= |t| && forall i | p <= i < q :: t[i] == ' ' || t[i] == '\t'
    ensures q == |t| || (t[q] != ' ' && t[q] != '\t') ==> SkipSpaces(t, p) == q
    decreases q - p
  {
    if p < q { Skips(t, p + 1, q); }
  }

  /** The digits of a text are scanned wherever they stand in it. */
  lemma DigitsFrom(t: string, a: nat, e: nat, b: nat, neg: bool, lim: U64)
    requires a < e <= |t| && 2 <= b <= 36 && (forall i | a <= i < e :: DigitOf(t[i]) < b) && DigitAt(t, e) >= b
    ensures var (w, error) := Limited(ValueIn(t[a..e], b), neg, lim);
      ScanDigits(t, a, b, neg, lim) == Scanned(w, error, e, true)
  {
    hide DigitOf, ValueIn, RunEnd;
    assert forall i | a <= i < e :: DigitAt(t, i) < b;
    RunIs(t, a, e, b);
  }

  /** A result against a limit: an odd limit is that of an unsigned type and bounds the magnitude, an even one
      is one more than the largest number of a signed type. A negative result stands for its remainder. */
  lemma LimitedIs(v: nat, neg: bool, lim: U64)
    ensures var (w, error) := Limited(v, neg, lim);
      && (error == NoError <==> if lim % 2 == 1 || neg then v <= lim else v < lim)
      && (error == NoError && neg ==> (w + v) % 0x1_0000_0000_0000_0000 == 0)
      && (error == NoError && !neg ==> w == v)
      && (error != NoError ==> error == OutOfRange)
      && (error != NoError && lim % 2 == 1 ==> w == lim)
      && (error != NoError && lim % 2 == 0 && !neg ==> (w + 1 - lim) % 0x1_0000_0000_0000_0000 == 0)
      && (error != NoError && lim % 2 == 0 && neg ==>
            if v < 0x1_0000_0000_0000_0000 then w == lim else (w + lim) % 0x1_0000_0000_0000_0000 == 0)
  {
  }

  lemma DigitNotMark(c: char)
    requires DigitOf(c) < 36
    ensures c != ' ' && c != '\t' && c != '+' && c != '-'
    ensures DigitOf(c) < 16 ==> c != 'x' && c != 'X'
  {
  }

  /** Where the parts of a text lie. */
  lemma PartsAt(spaces: string, sign: string, prefix: string, s: string, rest: string)
    ensures var t, p := spaces + sign + prefix + s + rest, |spaces|; var q := p + |sign|; var a := q + |prefix|;
      && |t| == a + |s| + |rest| && t[..p] == spaces && t[p..q] == sign && t[q..a] == prefix && t[a..a + |s|] == s
      && t[a + |s|..] == rest
  {
    var t, a := spaces + sign + prefix + s + rest, |spaces| + |sign| + |prefix|;
    assert t == (spaces + sign + prefix) + (s + rest);
    assert spaces + sign + prefix == t[..a];
  }

  lemma SliceHead(t: string, i: nat, j: nat)
    requires i <= j <= |t|
    ensures i < j ==> t[i..j][0] == t[i]
    ensures i + 1 < j ==> t[i..j][1] == t[i + 1]
  {
  }

  lemma FromSign(t: string, p: nat, q: nat, base: nat, pok: bool, lim: U64, minus: bool)
    requires SkipSpaces(t, 0) == p && p < |t| && p <= q < |t| && base <= 36 && base != 1
    requires if q == p then !IsSign(t, p) && !minus else q == p + 1 && IsSign(t, p) && (minus <==> t[p] == '-')
    ensures Scan(t, 0, base, pok, lim) ==
      if (base == 0 || base == 16) && t[q] == '0' then
        if IsX(t, q + 1) then
          if DigitAt(t, q + 2) < 16 then ScanDigits(t, q + 2, 16, minus, lim)
          else Scanned(0, NoError, if pok then q + 1 else q + 2, pok)
        else ScanDigits(t, q, if base == 0 then 8 else base, minus, lim)
      else if DigitAt(t, q) >= if base == 0 then 10 else base then Scanned(0, InvalidBase, q, false)
      else ScanDigits(t, q, if base == 0 then 10 else base, minus, lim)
  {
    hide ScanDigits, DigitOf, SkipSpaces;
  }

  /** The scan comes to the digits. */
  lemma ScanReaches(spaces: string, sign: string, prefix: string, s: string, rest: string, base: nat, b: nat, pok: bool,
      lim: U64)
    requires Blank(spaces) && sign in {"", "+", "-"} && s != "" && Prefix(prefix, base, b, s, rest)
    requires (forall i | 0 <= i < |s| :: DigitOf(s[i]) < b) && DigitAt(rest, 0) >= b
    ensures var t, a := spaces + sign + prefix + s + rest, |spaces| + |sign| + |prefix|;
      Scan(t, 0, base, pok, lim) == ScanDigits(t, a, b, sign == "-", lim)
  {
    hide ScanDigits, Scan, DigitOf, SkipSpaces, Limited, RunEnd, ValueIn, Blank;
    var t, p := spaces + sign + prefix + s + rest, |spaces|;
    var q := p + |sign|;
    HeadAt(spaces, sign, prefix, s, rest, b);
    FromSign(t, p, q, base, pok, lim, sign == "-");
    if prefix == "0" { LeadingZero(t, q, 8, sign == "-", lim); }
  }

  /** The characters around the sign and the prefix. */
  lemma HeadAt(spaces: string, sign: string, prefix: string, s: string, rest: string, b: nat)
    requires Blank(spaces) && sign in {"", "+", "-"} && prefix in {"", "0", "0x", "0X"} && s != ""
    requires (forall i | 0 <= i < |s| :: DigitOf(s[i]) < b) && b <= 36
    ensures var t, p := spaces + sign + prefix + s + rest, |spaces|; var q := p + |sign|; var a := q + |prefix|;
      && SkipSpaces(t, 0) == p && a < |t| && t[a] == s[0] && (sign != "" ==> t[p] == sign[0])
      && (prefix != "" ==> t[q] == '0') && (|prefix| == 2 ==> t[q + 1] == prefix[1])
      && (if |s| > 1 then a + 1 < |t| && t[a + 1] == s[1]
          else if rest == "" then a + 1 == |t| else a + 1 < |t| && t[a + 1] == rest[0])
      && !IsSign(t, q) && DigitAt(t, a) < b && (b <= 16 ==> !IsX(t, a) && (|s| > 1 ==> !IsX(t, a + 1)))
  {
    hide DigitOf, SkipSpaces;
    var t, p := spaces + sign + prefix + s + rest, |spaces|;
    var q := p + |sign|;
    var a := q + |prefix|;
    PartsAt(spaces, sign, prefix, s, rest);
    DigitNotMark(s[0]);
    if |s| > 1 { DigitNotMark(s[1]); }
    SliceHead(t, p, q);
    SliceHead(t, q, a);
    SliceHead(t, a, a + |s|);
    SliceHead(t, a + |s|, |t|);
    forall i | 0 <= i < p ensures t[i] == ' ' || t[i] == '\t' {
      assert t[i] == t[..p][i];
    }
    Skips(t, 0, p);
  }

  /** Spaces, a sign, a prefix and digits are read as the number they denote, against any limit; reading stops
      behind the last digit. */
  lemma ReadsSigned(spaces: string, sign: string, prefix: string, s: string, rest: string, base: nat, b: nat, pok: bool,
      lim: U64) returns (r: Scanned)
    requires Blank(spaces) && sign in {"", "+", "-"} && s != "" && Prefix(prefix, base, b, s, rest)
    requires (forall i | 0 <= i < |s| :: DigitOf(s[i]) < b) && DigitAt(rest, 0) >= b
    ensures r == Scan(spaces + sign + prefix + s + rest, 0, base, pok, lim)
    ensures r.matched && r.end == |spaces| + |sign| + |prefix| + |s|
    ensures var v, minus := ValueIn(s, b), sign == "-";
      && (r.error == NoError <==> if lim % 2 == 1 || minus then v <= lim else v < lim)
      && (r.error == NoError && minus ==> (r.value + v) % 0x1_0000_0000_0000_0000 == 0)
      && (r.error == NoError && !minus ==> r.value == v)
      && (r.error != NoError ==> r.error == OutOfRange)
      && (r.error != NoError && lim % 2 == 1 ==> r.value == lim)
      && (r.error != NoError && lim % 2 == 0 && !minus ==> (r.value + 1 - lim) % 0x1_0000_0000_0000_0000 == 0)
      && (r.error != NoError && lim % 2 == 0 && minus ==>
            if v < 0x1_0000_0000_0000_0000 then r.value == lim
            else (r.value + lim) % 0x1_0000_0000_0000_0000 == 0)
  {
    hide ValueIn, Limited, ScanDigits, Scan, RunEnd, DigitOf;
    var t := spaces + sign + prefix + s + rest;
    r := Scan(t, 0, base, pok, lim);
    LimitedIs(ValueIn(s, b), sign == "-", lim);
    ScanReaches(spaces, sign, prefix, s, rest, base, b, pok, lim);
    DigitsThere(spaces, sign, prefix, s, rest, b, sign == "-", lim);
  }

  lemma DigitsThere(spaces: string, sign: string, prefix: string, s: string, rest: string, b: nat, neg: bool, lim: U64)
    requires s != "" && 2 <= b <= 36 && (forall i | 0 <= i < |s| :: DigitOf(s[i]) < b) && DigitAt(rest, 0) >= b
    ensures var t, a := spaces + sign + prefix + s + rest, |spaces| + |sign| + |prefix|;
      var (w, error) := Limited(ValueIn(s, b), neg, lim);
      a <= |t| && ScanDigits(t, a, b, neg, lim) == Scanned(w, error, a + |s|, true)
  {
    hide ValueIn, Limited, ScanDigits, RunEnd, DigitOf;
    var t, a := spaces + sign + prefix + s + rest, |spaces| + |sign| + |prefix|;
    PartsAt(spaces, sign, prefix, s, rest);
    var e := a + |s|;
    SliceHead(t, e, |t|);
    forall i | a <= i < e ensures DigitOf(t[i]) < b {
      assert t[i] == t[a..e][i - a];
    }
    DigitsFrom(t, a, a + |s|, b, neg, lim);
  }

  /** What stands behind spaces and a sign. */
  lemma BehindSign(spaces: string, sign: string, rest: string)
    requires Blank(spaces) && sign in {"", "+", "-"}
    requires sign == "" && rest != "" ==> rest[0] != ' ' && rest[0] != '\t' && rest[0] != '+' && rest[0] != '-'
    ensures var t, p := spaces + sign + rest, |spaces|; var q := p + |sign|;
      && |t| == q + |rest| && SkipSpaces(t, 0) == p && (IsSign(t, p) <==> sign != "")
      && (rest != "" ==> t[q] == rest[0]) && (|rest| > 1 ==> t[q + 1] == rest[1])
      && DigitAt(t, q) == DigitAt(rest, 0) && (|rest| > 1 ==> DigitAt(t, q + 2) == DigitAt(rest, 2))
  {
    hide DigitOf, SkipSpaces;
    var t, p := spaces + sign + rest, |spaces|;
    var q := p + |sign|;
    assert t[q..] == rest && t[p..q] == sign && forall i | 0 <= i < p :: t[i] == spaces[i];
    SliceHead(t, p, q);
    SliceHead(t, q, |t|);
    assert |rest| > 2 ==> t[q..][2] == rest[2];
    Skips(t, 0, p);
  }

  /** Spaces and a sign with no digit behind them: reading stops behind the sign. A base there is not: at once. */
  lemma ReadsNothing(spaces: string, sign: string, rest: string, base: nat, pok: bool, lim: U64)
    requires Blank(spaces) && sign in {"", "+", "-"}
    requires sign == "" && rest != "" ==> rest[0] != ' ' && rest[0] != '\t' && rest[0] != '+' && rest[0] != '-'
    ensures base == 1 || base > 36 ==> Scan(spaces + sign + rest, 0, base, pok, lim) == Scanned(0, InvalidBase, 0, true)
    ensures base != 1 && base <= 36 && DigitAt(rest, 0) >= (if base == 0 then 10 else base) ==>
      Scan(spaces + sign + rest, 0, base, pok, lim) == Scanned(0, InvalidBase, |spaces| + |sign|, false)
  {
    assert DigitOf('0') == 0;
    hide DigitOf, SkipSpaces, ScanDigits;
    BehindSign(spaces, sign, rest);
  }

  /** `0x` with no digit behind it counts as the 0 alone if the caller lets the scan step back, and else as nothing. */
  lemma BarePrefix(spaces: string, sign: string, rest: string, base: nat, pok: bool, lim: U64)
    requires Blank(spaces) && sign in {"", "+", "-"} && base in {0, 16} && |rest| >= 2 && rest[0] == '0'
    requires (rest[1] == 'x' || rest[1] == 'X') && DigitAt(rest, 2) >= 16
    ensures Scan(spaces + sign + rest, 0, base, pok, lim) ==
      Scanned(0, NoError, |spaces| + |sign| + (if pok then 1 else 2), pok)
  {
    hide DigitOf, SkipSpaces, ScanDigits;
    BehindSign(spaces, sign, rest);
  }
}
