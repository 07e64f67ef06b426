/** 64-bit division on a 32-bit machine: shift and subtract without a comparison in the loop. */
module Arith64 {
  import opened Bits
  import opened Options

  // ---------- leading zeros ----------

  /** The upper `k` bits are all 0. */
  predicate UpperClear(a: U64, k: nat)
    requires k <= 64
  {
    a < Pow2(64 - k)
  }

  /** `a` is `x` moved up by `n` bits without loss, and one of its upper `k` bits is set. */
  ghost predicate Moved(x: U64, a: U64, n: nat, k: nat)
    requires k <= 64
  {
    a == Up(x, n) && (x > 0 ==> a >= Pow2(64 - k))
  }

  /** Where the upper half of `2 * k` bits is clear, the set bit is in the lower half. */
  lemma ClzStep(x: U64, a: U64, n: nat, k: nat)
    requires 1 <= k <= 32 && Moved(x, a, n, 2 * k)
    ensures var b := if UpperClear(a, k) then k else 0; Moved(x, Shl(a, b), n + b, k)
    ensures x == 0 ==> UpperClear(a, k)
  {
    hide Pow2, Up;
    Pow2Is64();
    UpZero(a);
    UpZero(n);
    if UpperClear(a, k) {
      UpBelow(a, 64 - k, k);
      UpUp(x, n, k);
      if x > 0 { UpAtLeast(a, 64 - 2 * k, k); }
    }
  }

  /** The number of leading 0 bits; 63 also for 0, which has 64. */
  method Clz(x: U64) returns (n: nat)
    ensures x > 0 ==> n <= 63 && Pow2(63 - n) <= x < Pow2(64 - n)
    ensures x == 0 ==> n == 63
  {
    hide Moved, UpperClear, Shl, Pow2;
    ClzStart(x);
    ClzStep(x, x, 0, 32);
    var b := if UpperClear(x, 32) then 32 else 0;
    var a := Shl(x, b);
    n := b;
    ClzStep(x, a, n, 16);
    b := if UpperClear(a, 16) then 16 else 0;
    a, n := Shl(a, b), n + b;
    ClzStep(x, a, n, 8);
    b := if UpperClear(a, 8) then 8 else 0;
    a, n := Shl(a, b), n + b;
    ClzStep(x, a, n, 4);
    b := if UpperClear(a, 4) then 4 else 0;
    a, n := Shl(a, b), n + b;
    ClzStep(x, a, n, 2);
    b := if UpperClear(a, 2) then 2 else 0;
    a, n := Shl(a, b), n + b;
    ClzEnd(x, a, n);
    n := n + if UpperClear(a, 1) then 1 else 0;
  }

  lemma ClzStart(x: U64)
    ensures Moved(x, x, 0, 64)
  {
    UpZero(x);
    Pow2Next(0);
  }

  lemma ClzEnd(x: U64, a: U64, n: nat)
    requires Moved(x, a, n, 2) && n <= 62
    ensures var m := n + if UpperClear(a, 1) then 1 else 0; x > 0 ==> m <= 63 && Pow2(63 - m) <= x < Pow2(64 - m)
    ensures x == 0 ==> UpperClear(a, 1)
  {
    hide Pow2, Up;
    Pow2Is64();
    UpZero(n);
    var m := n + if UpperClear(a, 1) then 1 else 0;
    if x > 0 {
      if x < Pow2(63 - m) { UpBelow(x, 63 - m, n); }
      if x >= Pow2(64 - m) { UpAtLeast(x, 64 - m, n); }
    }
  }

  // ---------- one round of the division ----------

  /** All ones for true, as the sign bit spread over a word. */
  function SignMask(n: U64): (mask: U64)
    ensures mask == 0 || mask == WORD - 1
  {
    if n >= HALF then WORD - 1 else 0
  }

  function And(a: U64, mask: U64): U64
    requires mask == 0 || mask == WORD - 1
  {
    if mask == 0 then 0 else a
  }

  /** The mask is the comparison, even for divisors beyond 2^63, as long as the remainder is not
      below such a divisor. */
  lemma MaskCompares(b: U64, rem: U64)
    requires b > 0 && (if b <= HALF then rem < 2 * b else rem >= b)
    ensures SignMask((b - rem - 1) % WORD) == if rem >= b then WORD - 1 else 0
  {
    if rem >= b { ModNegative(b - rem - 1); }
  }

  lemma ModNegative(x: int)
    requires 0 - WORD <= x < 0
    ensures x % WORD == x + WORD
  {
  }

  /** The state with `m` rounds to go: `m` bits of `x` are still at the top of `a`, and the
      quotient so far is in its lower bits, but for the last bit, which is in `wrap`. */
  ghost predicate Dividing(x: U64, b: U64, m: nat, a: U64, rem: U64, wrap: U64, q: nat)
    requires m <= 63
  {
    && High(x, m) == Mul(q, b) + rem && rem < b && q < Pow2(64 - m)
    && (wrap == 0 || wrap == WORD - 1) && q % 2 == (if wrap == 0 then 0 else 1)
    && a == Up(Low(x, m), 64 - m) + q / 2
  }

  /** Beyond 2^63 there is one round only, and its remainder is the numerator. */
  ghost predicate Fits(x: U64, b: U64, m: nat, q: nat) { b > 0 && (b > HALF ==> m == 1 && q == 0 && x >= b) }

  /** The uppermost of `m` bits. */
  lemma TopBit(x: nat, m: nat) returns (bit: nat)
    requires m >= 1
    ensures bit <= 1 && High(x, m - 1) == 2 * High(x, m) + bit && Low(x, m) == Up(bit, m - 1) + Low(x, m - 1)
  {
    hide Pow2, Up, High, Low;
    Pow2Next(m - 1);
    var h, l := High(x, m), Low(x, m);
    Parts(x, m);
    bit := if l >= Pow2(m - 1) then 1 else 0;
    UpZero(m - 1);
    UpOne(m - 1);
    UpNext(h, m - 1);
    UpAdd(h, h, m - 1);
    UpAdd(2 * h, bit, m - 1);
    PartsAre(x, m - 1, 2 * h + bit, l - Up(bit, m - 1));
  }

  /** The bit that leaves `a` at the top, and the quotient bit that enters below. */
  lemma ShiftOut(low: nat, bit: nat, m: nat, q: nat, a: U64, wrap: U64)
    requires 1 <= m <= 63 && bit <= 1 && low < Pow2(m - 1) && q < Pow2(64 - m) && wrap % 2 == q % 2
    requires a == Up(Up(bit, m - 1) + low, 64 - m) + q / 2
    ensures Shr(a, 63) == bit && Shl(a, 1) % 2 == 0 && Shl(a, 1) + wrap % 2 == Up(low, 65 - m) + q < WORD
  {
    hide Pow2, Up, High;
    Pow2Is64();
    Pow2Next(64 - m);
    UpAdd(Up(bit, m - 1), low, 64 - m);
    UpUp(bit, m - 1, 64 - m);
    UpZero(63);
    UpOne(63);
    UpBelow(low, m - 1, 64 - m);
    UpNext(low, 64 - m);
    UpNext(a, 0);
    UpZero(a);
    PartsAre(a, 63, bit, Up(low, 64 - m) + q / 2);
  }

  /** What the shifts of one round give. */
  lemma DivideBits(x: U64, b: U64, m: nat, a: U64, rem: U64, wrap: U64, q: nat) returns (bit: nat)
    requires 1 <= m <= 63 && Dividing(x, b, m, a, rem, wrap, q)
    ensures bit == Shr(a, 63) <= 1 && High(x, m - 1) == 2 * High(x, m) + bit
    ensures Shl(a, 1) % 2 == 0 && Shl(a, 1) + wrap % 2 == Up(Low(x, m - 1), 65 - m) + q < WORD
  {
    hide Pow2, Up, High, Low, Shl, Shr;
    bit := TopBit(x, m);
    ShiftOut(Low(x, m - 1), bit, m, q, a, wrap);
  }

  lemma DivideStep(x: U64, b: U64, m: nat, a: U64, rem: U64, wrap: U64, q: nat, bit: nat, a1: U64) returns (q': nat)
    requires 1 <= m <= 63 && Dividing(x, b, m, a, rem, wrap, q) && Fits(x, b, m, q)
    requires bit <= 1 && High(x, m - 1) == 2 * High(x, m) + bit && a1 == Up(Low(x, m - 1), 65 - m) + q
    ensures 2 * rem + bit < WORD
    ensures var rem1 := 2 * rem + bit; var wrap1 := SignMask((b - rem1 - 1) % WORD);
      And(b, wrap1) <= rem1 && Dividing(x, b, m - 1, a1, rem1 - And(b, wrap1), wrap1, q')
    ensures m > 1 ==> Fits(x, b, m - 1, q')
  {
    hide Pow2, Up, High, Low, SignMask, Mul;
    var rem1 := 2 * rem + bit;
    MulTwice(q, b);
    UpZero(x);
    MulTwice(0, b);
    Pow2Next(64 - m);
    MaskCompares(b, rem1);
    q' := if rem1 >= b then 2 * q + 1 else 2 * q;
    assert q' / 2 == q;
  }

  lemma DivideStart(x: U64, b: U64, za: nat, zb: nat)
    requires x >= b >= 2 && (b < 0x1_0000_0000 ==> x >= 0x1_0000_0000)
    requires za <= 63 && Pow2(63 - za) <= x < Pow2(64 - za)
    requires zb <= 63 && Pow2(63 - zb) <= b < Pow2(64 - zb)
    ensures 1 <= zb - za + 1 <= 63
    ensures var n := zb - za + 1; Dividing(x, b, n, Shl(x, 64 - n), Shr(x, n), 0, 0) && Fits(x, b, n, 0)
  {
    hide Pow2, Up, High, Low, Mul;
    var n := zb - za + 1;
    StartBits(x, b, za, zb);
    Pow2Is64();
    Pow2Next(0);
    Parts(x, n);
    MulTwice(0, b);
    var h, l := High(x, n), Low(x, n);
    if h >= Pow2(63 - zb) { UpAtLeast(h, 63 - zb, n); }
    UpAdd(Up(h, n), l, 64 - n);
    UpUp(h, n, 64 - n);
    UpBelow(l, n, 64 - n);
    TimesWord(h, Up(l, 64 - n));
    if b > HALF && zb > 0 { Pow2Mono(64 - zb, 63); }
    Pow2Mono(0, 64 - n);
  }

  lemma TimesWord(h: nat, l: nat)
    requires l < WORD
    ensures (Up(h, 64) + l) % WORD == l
  {
    hide Pow2;
    Pow2Is64();
    RemainderIs(h * WORD + l, WORD, h, l);
  }

  /** At least one round and at most 63. */
  lemma StartBits(x: U64, b: U64, za: nat, zb: nat)
    requires x >= b >= 2 && (b < 0x1_0000_0000 ==> x >= 0x1_0000_0000)
    requires za <= 63 && x < Pow2(64 - za) && zb <= 63 && Pow2(63 - zb) <= b < Pow2(64 - zb)
    ensures 1 <= zb - za + 1 <= 63
  {
    hide Pow2;
    Pow2Next(0);
    Pow2Is32();
    if zb < za { Pow2Mono(64 - za, 63 - zb); }
    if zb >= 32 { Pow2Mono(64 - zb, 32); }
    if za > 31 { Pow2Mono(64 - za, 32); }
  }

  // ---------- the division ----------

  /** Quotient and remainder; None is the exception that a division by 0 forces. */
  method DivMod(x: U64, b: U64) returns (r: Option<(U64, U64)>)
    ensures r == if b == 0 then None else Some((x / b, x % b))
  {
    hide Pow2, Dividing, Fits, Shl, Shr;
    if b > x {
      RemainderIs(x, b, 0, x);
      return Some((0, x));
    }
    if b < 0x1_0000_0000 {
      if b == 0 {
        return None;
      }
      DivSmall(x, b);
      if b == 1 {
        return Some((x, 0));
      }
      if x < 0x1_0000_0000 {
        return Some((x / b, x % b));
      }
    }
    var zb := Clz(b);
    var za := Clz(x);
    DivideStart(x, b, za, zb);
    var q, rem := LongDivision(x, b, zb - za + 1);
    RemainderIs(x, b, q, rem);
    return Some((q, rem));
  }

  /** The loop, over as many bits as the quotient can have. */
  method LongDivision(x: U64, b: U64, bits: nat) returns (q: U64, rem: U64)
    requires 1 <= bits <= 63 && Dividing(x, b, bits, Shl(x, 64 - bits), Shr(x, bits), 0, 0) && Fits(x, b, bits, 0)
    ensures x == b * q + rem && rem < b
  {
    hide Pow2, Dividing, Fits, Shl, Shr, SignMask, And;
    rem := Shr(x, bits);
    var a: U64 := Shl(x, 64 - bits);
    var wrap: U64 := 0;
    ghost var k := 0;
    var m := bits;
    while m > 0
      invariant m <= 63 && Dividing(x, b, m, a, rem, wrap, k) && (m > 0 ==> Fits(x, b, m, k))
    {
      ghost var bit := DivideBits(x, b, m, a, rem, wrap, k);
      k := DivideStep(x, b, m, a, rem, wrap, k, bit, Shl(a, 1) + wrap % 2);
      rem := 2 * rem + Shr(a, 63);
      a := Shl(a, 1) + wrap % 2;
      wrap := SignMask((b - rem - 1) % WORD);
      rem := rem - And(b, wrap);
      m := m - 1;
    }
    DivideEnd(x, b, a, rem, wrap, k);
    q := Shl(a, 1) + wrap % 2;
  }

  lemma DivideEnd(x: U64, b: U64, a: U64, rem: U64, wrap: U64, k: nat)
    requires Dividing(x, b, 0, a, rem, wrap, k)
    ensures Shl(a, 1) + wrap % 2 == k < WORD && x == b * k + rem && rem < b
  {
    hide Pow2, Up, High, Low;
    Pow2Is64();
    UpZero(x);
    UpZero(64);
    UpNext(a, 0);
    UpZero(a);
    assert b * k == k * b;
  }

  method UDiv(a: U64, b: U64) returns (r: Option<U64>)
    ensures r == if b == 0 then None else Some(a / b)
  {
    var d := DivMod(a, b);
    r := if d.None? then None else Some(d.value.0);
  }

  method UMod(a: U64, b: U64) returns (r: Option<U64>)
    ensures r == if b == 0 then None else Some(a % b)
  {
    var d := DivMod(a, b);
    r := if d.None? then None else Some(d.value.1);
  }
}
