/** Powers of two, and numbers taken apart at a bit. */
module Bits {
  const WORD := 0x1_0000_0000_0000_0000
  const HALF := 0x8000_0000_0000_0000

  type U64 = n: nat | n < WORD

  function Pow2(n: nat): (p: nat)
    ensures p >= 1
  {
    if n == 0 then 1 else 2 * Pow2(n - 1)
  }

  /** `u` moved up by `k` bits, its upper part, and its lower part. */
  function Up(u: nat, k: nat): nat { u * Pow2(k) }

  function High(u: nat, k: nat): (h: nat)
    ensures h <= u
  {
    DivSmall(u, Pow2(k));
    u / Pow2(k)
  }

  function Low(u: nat, k: nat): (l: nat)
    ensures l < Pow2(k)
  {
    u % Pow2(k)
  }

  function Shl(a: U64, k: nat): U64 { Up(a, k) % WORD }

  function Shr(a: U64, k: nat): U64 { High(a, k) }

  lemma MulMono(a: nat, b: nat, p: nat)
    requires a <= b
    ensures a * p <= b * p
  {
    assert b * p == a * p + (b - a) * p;
  }

  lemma DivSmall(a: nat, p: nat)
    requires p >= 1
    ensures 0 <= a / p <= a && a == p * (a / p) + a % p
  {
    MulMono(1, p, a / p);
  }

  lemma RemainderIs(x: nat, p: nat, q: nat, r: nat)
    requires p >= 1 && x == p * q + r && r < p
    ensures x / p == q && x % p == r
  {
    DivSmall(x, p);
    var q2 := x / p;
    if q2 > q { MulMono(q + 1, q2, p); } else if q2 < q { MulMono(q2 + 1, q, p); }
  }

  lemma {:induction false} Pow2Add(m: nat, n: nat)
    ensures Pow2(m + n) == Pow2(m) * Pow2(n)
    decreases n
  {
    if n > 0 { Pow2Add(m, n - 1); }
  }

  lemma {:induction false} Pow2Mono(m: nat, n: nat)
    requires m <= n
    ensures Pow2(m) <= Pow2(n)
    decreases n
  {
    if m < n { Pow2Mono(m, n - 1); }
  }

  lemma Pow2Next(n: nat)
    ensures Pow2(n + 1) == 2 * Pow2(n) && Pow2(0) == 1 && Pow2(1) == 2
  {
  }

  lemma Pow2Is32()
    ensures Pow2(31) == 0x8000_0000 && Pow2(32) == 0x1_0000_0000
  {
    assert Pow2(5) == 32 && Pow2(8) == 256;
    Pow2Add(8, 8);
    Pow2Add(16, 8);
    Pow2Add(24, 7);
    hide Pow2;
    Pow2Next(31);
  }

  lemma Pow2Is64()
    ensures Pow2(63) == HALF && Pow2(64) == WORD && Pow2(32) == 0x1_0000_0000
  {
    hide Pow2;
    Pow2Is32();
    Pow2Add(32, 31);
    Pow2Next(63);
  }

  lemma UpZero(u: nat)
    ensures Up(u, 0) == u && Up(0, u) == 0 && High(u, 0) == u && Low(u, 0) == 0
  {
    assert Pow2(0) == 1;
    DivSmall(u, 1);
  }

  lemma UpOne(k: nat)
    ensures Up(1, k) == Pow2(k)
  {
  }

  lemma UpNext(u: nat, k: nat)
    ensures Up(u, k + 1) == 2 * Up(u, k)
  {
    Pow2Next(k);
    hide Pow2;
    var p := Pow2(k);
    assert u * (2 * p) == 2 * (u * p);
  }

  lemma UpAdd(u: nat, v: nat, k: nat)
    ensures Up(u + v, k) == Up(u, k) + Up(v, k)
  {
    hide Pow2;
    Distribute(u, v, Pow2(k));
  }

  lemma Distribute(u: nat, v: nat, p: nat)
    ensures (u + v) * p == u * p + v * p
  {
  }

  lemma {:induction false} UpUp(u: nat, j: nat, k: nat)
    ensures Up(Up(u, j), k) == Up(u, j + k)
    decreases k
  {
    hide Up;
    if k == 0 {
      UpZero(Up(u, j));
    } else {
      UpUp(u, j, k - 1);
      UpNext(Up(u, j), k - 1);
      UpNext(u, j + k - 1);
    }
  }

  lemma UpMono(u: nat, v: nat, k: nat)
    requires u <= v
    ensures Up(u, k) <= Up(v, k)
  {
    MulMono(u, v, Pow2(k));
  }

  /** A number of `j` bits moved up by `k`. */
  lemma UpBelow(u: nat, j: nat, k: nat)
    requires u < Pow2(j)
    ensures Up(u, k) + Pow2(k) <= Pow2(j + k)
  {
    hide Pow2, Up;
    UpMono(u + 1, Pow2(j), k);
    UpAdd(u, 1, k);
    UpOne(k);
    UpOne(j);
    UpUp(1, j, k);
    UpOne(j + k);
  }

  lemma UpAtLeast(u: nat, j: nat, k: nat)
    requires u >= Pow2(j)
    ensures Up(u, k) >= Pow2(j + k)
  {
    hide Pow2, Up;
    UpMono(Pow2(j), u, k);
    UpOne(j);
    UpUp(1, j, k);
    UpOne(j + k);
  }

  lemma Parts(u: nat, k: nat)
    ensures u == Up(High(u, k), k) + Low(u, k)
  {
    DivSmall(u, Pow2(k));
  }

  lemma PartsAre(u: nat, k: nat, h: nat, l: nat)
    requires u == Up(h, k) + l && l < Pow2(k)
    ensures High(u, k) == h && Low(u, k) == l
  {
    RemainderIs(u, Pow2(k), h, l);
  }

  lemma QuotientBelow(x: nat, p: nat, q: nat)
    requires p > 0 && x < q * p
    ensures x / p < q
  {
    DivSmall(x, p);
    if x / p >= q { MulMono(q, x / p, p); }
  }

  // Products of variables are kept behind a name where a proof does not look into them.

  function Mul(a: nat, b: nat): nat { a * b }

  lemma MulTwice(q: nat, b: nat)
    ensures Mul(2 * q, b) == 2 * Mul(q, b) && Mul(2 * q + 1, b) == 2 * Mul(q, b) + b && Mul(0, b) == 0
  {
    assert (2 * q) * b == 2 * (q * b);
    assert (2 * q + 1) * b == (2 * q) * b + b;
  }
}
