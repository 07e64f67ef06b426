/**
 Reading a decimal numeral into binary: limbs of nine digits in a ring buffer, scaled by
 powers of two until three limbs before the radix point hold a 64-bit significand.
 `Value` is the exact real number the state stands for.
 */
module DecFloat {
  import Bits
  import opened Closeness
  import opened Limbs
  import opened Rounding

  const KMAX := 2048
  const LD_B1B_DIG := 3
  const POINT := 27  // nine digits a limb, three limbs
  const TH0 := 18
  const TH1 := 446744073
  const TH2 := 709551615
  // limbs stay below this even after the buffer has overflowed
  const LIMB_MAX := 0x3FFF_FFFF

  function Cell(a: int, j: int): (k: nat)
    ensures k < KMAX
  {
    (a + j) % KMAX
  }

  /** `n` cells of the buffer from `a` on, going round. */
  ghost function Ring(s: seq<nat>, a: nat, n: nat): (r: seq<nat>)
    requires |s| == KMAX && n <= KMAX
    ensures |r| == n
  {
    seq(n, j requires 0 <= j < n => s[Cell(a, j)])
  }

  lemma RestIs(x: int, q: int, r: int)
    requires x == KMAX * q + r && 0 <= r < KMAX
    ensures x % KMAX == r
  {
  }

  lemma CellAdd(a: int, i: int, j: int)
    ensures Cell(Cell(a, i), j) == Cell(a, i + j)
  {
    var k := Cell(a, i);
    RestIs(a + i + j, (a + i) / KMAX + (k + j) / KMAX, Cell(k, j));
  }

  /** Once round. */
  lemma CellWrap(a: int, i: int)
    ensures Cell(a, i + KMAX) == Cell(a, i)
  {
    RestIs(a + i + KMAX, (a + i) / KMAX + 1, Cell(a, i));
  }

  lemma CellIn(a: nat)
    requires a < KMAX
    ensures Cell(a, 0) == a == Cell(0, a)
  {
  }

  lemma CellsApart(a: nat, i: nat)
    requires i < KMAX
    ensures forall j | 0 <= j < KMAX && j != i :: Cell(a, j) != Cell(a, i)
  {
    forall j | 0 <= j < KMAX && j != i ensures Cell(a, j) != Cell(a, i) {
      CellPlace(a, j);
      CellPlace(a, i);
    }
  }

  /** How far along the ring a cell is. */
  lemma CellPlace(a: int, i: nat)
    requires i < KMAX
    ensures Cell(Cell(a, i), 0 - a) == i
  {
    hide Cell;
    CellAdd(a, i, 0 - a);
    CellAdd(0, a, i - a);
    CellFrom(a, i);
    CellIn(i);
  }

  lemma CellFrom(a: int, i: int)
    ensures Cell(a, i - a) == Cell(0, i)
  {
  }

  lemma RingPut(s: seq<nat>, a: nat, n: nat, i: nat, v: nat)
    requires |s| == KMAX && n <= KMAX && a < KMAX && i < KMAX
    ensures Ring(s[Cell(a, i) := v], a, n) == if i < n then Ring(s, a, n)[i := v] else Ring(s, a, n)
  {
    hide Cell;
    CellsApart(a, i);
  }

  lemma RingExtend(s: seq<nat>, a: nat, n: nat)
    requires |s| == KMAX && n < KMAX && a < KMAX
    ensures Ring(s, a, n + 1) == Ring(s, a, n) + [s[Cell(a, n)]]
    ensures Ring(s, Cell(a, -1), n + 1) == [s[Cell(a, -1)]] + Ring(s, a, n)
  {
    hide Cell;
    forall j | 0 <= j < n ensures Cell(Cell(a, -1), j + 1) == Cell(a, j) {
      CellAdd(a, -1, j + 1);
    }
    CellIn(Cell(a, -1));
  }

  lemma RingDrop(s: seq<nat>, a: nat, n: nat)
    requires |s| == KMAX && 0 < n <= KMAX && a < KMAX
    ensures Ring(s, Cell(a, 1), n - 1) == Ring(s, a, n)[1..]
  {
    hide Cell;
    forall j | 0 <= j < n - 1 ensures Cell(Cell(a, 1), j) == Cell(a, j + 1) {
      CellAdd(a, 1, j);
    }
  }

  /** Moving along the ring. */
  lemma CellFacts(a: nat, z: nat, i: nat)
    requires a < KMAX && z < KMAX && i < KMAX
    ensures Cell(z, -1) == Cell(a, Cell(z, 0 - a) - 1) && z == Cell(a, Cell(z, 0 - a))
    ensures Cell(a, i) == a <==> i == 0
    ensures Cell(Cell(a, i), 0 - a) == i
    ensures Cell(Cell(a, i), -1) == Cell(a, i - 1) && Cell(Cell(a, i), 1) == Cell(a, i + 1)
    ensures forall j | 0 <= j < KMAX && Cell(a, j) == Cell(a, i) :: j == i
  {
    hide Cell;
    CellIn(a);
    CellTo(a, z);
    CellAdd(a, Cell(z, 0 - a), -1);
    CellsApart(a, i);
    CellPlace(a, i);
    CellAdd(a, i, -1);
    CellAdd(a, i, 1);
    CellsApart(a, 0);
  }

  /** A cell lies as far along the ring as it is from the first one. */
  lemma CellTo(a: nat, z: nat)
    requires a < KMAX && z < KMAX
    ensures z == Cell(a, Cell(z, 0 - a))
  {
    RestIs(a + Cell(z, 0 - a), 0 - (z - a) / KMAX, z);
  }

  lemma RingAt(s: seq<nat>, a: nat, n: nat, i: nat)
    requires |s| == KMAX && i < n <= KMAX
    ensures Ring(s, a, n)[i] == s[Cell(a, i)]
  {
  }

  lemma RingPrefix(s: seq<nat>, a: nat, n: nat, i: nat)
    requires |s| == KMAX && i <= n <= KMAX
    ensures Ring(s, a, i) == Ring(s, a, n)[..i]
  {
  }

  lemma RingFromZero(s: seq<nat>, n: nat)
    requires |s| == KMAX && n < KMAX
    ensures Cell(n, 0) == n && Ring(s, 0, n) == s[..n]
  {
  }

  lemma UpTailNil(l: seq<nat>)
    ensures UpTail(l[|l|..]) == ([], 0)
  {
  }

  lemma Pow2At30()
    ensures Bits.Pow2(30) == LIMB_MAX + 1
  {
    assert Bits.Pow2(5) == 32;
    assert Bits.Pow2(10) == 1024;
    assert Bits.Pow2(15) == 0x8000;
    assert Bits.Pow2(20) == 0x10_0000;
    assert Bits.Pow2(25) == 0x200_0000;
  }

  /** Bitwise or of `bits`-bit numbers. */
  function OrBits(x: nat, y: nat, bits: nat): (r: nat)
    requires x < Bits.Pow2(bits) && y < Bits.Pow2(bits)
    ensures x <= r < Bits.Pow2(bits) && y <= r
  {
    if bits == 0 then 0
    else 2 * OrBits(x / 2, y / 2, bits - 1) + if x % 2 == 1 || y % 2 == 1 then 1 else 0
  }

  function Or(x: nat, y: nat): (r: nat)
    requires x <= LIMB_MAX && y <= LIMB_MAX
    ensures x <= r <= LIMB_MAX
  {
    Pow2At30();
    OrBits(x, y, 30)
  }

  /** The last two limbs made one. */
  function Folded(l: seq<nat>): (m: seq<nat>)
    requires |l| >= 2 && Bounded(l, LIMB_MAX)
    ensures |m| == |l| - 1 && Bounded(m, LIMB_MAX)
  {
    l[..|l| - 2] + [Or(l[|l| - 2], l[|l| - 1])]
  }

  /** The last limb made odd. */
  function Marked(l: seq<nat>): (m: seq<nat>)
    requires l != [] && Bounded(l, LIMB_MAX)
    ensures |m| == |l| && Bounded(m, LIMB_MAX)
  {
    l[..|l| - 1] + [Or(l[|l| - 1], 1)]
  }

  /** How often a limb can be divided before it is 0. */
  ghost function Rounds(x: nat, p: nat): (n: nat)
    requires p >= 2
    ensures x > 0 ==> n > 0
  {
    if x == 0 then 0 else 1 + Rounds(x / p, p)
  }

  lemma RoundsNext(x: nat, p: nat)
    requires p >= 2 && x > 0
    ensures Rounds(x, p) == if x / p == 0 then 1 else 1 + Rounds(x / p, p)
  {
  }

  lemma RoundsBound(x: nat)
    requires x <= LIMB_MAX
    ensures Rounds(x, 512) <= 4
    ensures Rounds(x, 2) <= 30
  {
    Pow2At30();
    HalvesBound(x, 30);
    RoundsUnder(x, 3);
  }

  lemma {:induction false} HalvesBound(x: nat, n: nat)
    requires x < Bits.Pow2(n)
    ensures Rounds(x, 2) <= n
  {
    if x > 0 { HalvesBound(x / 2, n - 1); }
  }

  lemma RoundsUnder(x: nat, n: nat)
    requires n <= 3 && x < [8, 0x1000, 0x20_0000, 0x4000_0000][n]
    ensures Rounds(x, 512) <= n + 1
  {
    if n > 0 && x > 0 { RoundsUnder(x / 512, n - 1); }
  }

  /** How many limbs the radix point is beyond the last two to drop. */
  function Beyond(rp: int): int { (rp - POINT - 18) / 9 }

  lemma BeyondNext(rp: int)
    requires rp % 9 == 0
    ensures Beyond(rp - 9) == Beyond(rp) - 1 && (rp == POINT + 18 ==> Beyond(rp) == 0)
    ensures (rp > POINT + 9 ==> rp >= POINT + 18 && Beyond(rp) >= 0) && (rp > POINT ==> rp >= POINT + 9)
  {
  }

  /** At most this many limbs more are used while scaling down: three for each limb that is dropped, since
      a fourth round drops it, and at most 60 at the end. */
  ghost function Growth(rp: int, lead: nat): (n: nat)
    requires rp % 9 == 0 && rp >= POINT && lead > 0
    ensures n > 0
  {
    if rp == POINT then Rounds(lead, 2)
    else if rp == POINT + 9 then 30 + Rounds(lead, 2)
    else 60 + 3 * Beyond(rp) + Rounds(lead, 512) - 1
  }

  lemma GrowthDrops(rp: int, lead: nat, rp': int, lead': nat)
    requires rp % 9 == 0 && rp >= POINT && rp' % 9 == 0 && rp' >= POINT && 0 < lead <= LIMB_MAX && 0 < lead' <= LIMB_MAX
    requires var rest := if rp > 9 + POINT then lead / 512 else lead / 2;
      if rest == 0 then rp' == rp - 9 else rp' == rp && lead' == rest
    ensures Growth(rp', lead') <= if rp' == rp then Growth(rp, lead) - 1 else Growth(rp, lead)
  {
    hide Rounds, Beyond;
    RoundsBound(lead');
    BeyondNext(rp);
    if rp > 9 + POINT { RoundsNext(lead, 512); } else { RoundsNext(lead, 2); }
  }

  /** The limbs for any number at all. */
  lemma GrowthBound(rp: int, lead: nat)
    requires rp % 9 == 0 && rp >= POINT && 0 < lead <= LIMB_MAX
    ensures Growth(rp, lead) <= 63 + if rp <= POINT + 9 then 0 else 3 * ((rp - POINT - 9) / 9)
  {
    RoundsBound(lead);
  }

  /** Rounds left when scaling down: four for each limb to be dropped, and at most 60 at the end. */
  ghost function RoundsLeft(rp: int, lead: nat): (n: nat)
    requires rp % 9 == 0 && rp >= POINT
  {
    if rp == POINT then Rounds(lead, 2)
    else if rp == POINT + 9 then 30 + Rounds(lead, 2)
    else 60 + 4 * Beyond(rp) + Rounds(lead, 512)
  }

  lemma RoundsDrop(rp: int, lead: nat, rp': int, lead': nat)
    requires rp % 9 == 0 && rp >= POINT && rp' % 9 == 0 && rp' >= POINT && 0 < lead <= LIMB_MAX && 0 < lead' <= LIMB_MAX
    requires var rest := if rp > 9 + POINT then lead / 512 else lead / 2;
      if rest == 0 then rp' == rp - 9 else rp' == rp && lead' == rest
    ensures RoundsLeft(rp', lead') < RoundsLeft(rp, lead)
  {
    hide Rounds, Beyond;
    RoundsBound(lead');
    BeyondNext(rp);
    if rp > 9 + POINT { RoundsNext(lead, 512); } else { RoundsNext(lead, 2); }
  }

  lemma RoundsMost(rp: int, lead: nat)
    requires rp % 9 == 0 && rp >= POINT && lead <= LIMB_MAX
    ensures RoundsLeft(rp, lead) <= MostDown(rp)
  {
    RoundsBound(lead);
  }

  /** The most rounds downward and upward, for a radix point at `rp`. */
  function MostDown(rp: int): nat { 64 + if rp <= POINT + 9 then 0 else 4 * ((rp - POINT - 9) / 9) }

  /** Rounds left when scaling up: two for each limb to come, one less after one that brought none. */
  ghost function UpLeft(rp: int, lead: nat): nat {
    if rp <= POINT + 9 then 2 * ((POINT + 9 - rp) / 9) + (if lead < 2 then 1 else 0) else 0
  }

  function MostUp(rp: int): nat { if rp > POINT + 9 then 0 else 2 * ((POINT + 9 - rp) / 9) + 1 }

  lemma UpMost(rp: int, lead: nat)
    ensures UpLeft(rp, lead) <= MostUp(rp)
  {
  }

  lemma UpDrops(rp: int, lead: nat, rp': int, lead': nat)
    requires rp % 9 == 0 && rp <= POINT && (rp' == rp + 9 || (rp' == rp && lead < 2 <= lead'))
    ensures rp' % 9 == 0 && UpLeft(rp', lead') < UpLeft(rp, lead)
  {
  }

  class Scaler {
    const x: array<nat>
    var a: nat
    var z: nat
    var rp: int
    var e2: int
    ghost var truncated: bool  // some limb has been folded into its neighbour

    /** Number of limbs in use. */
    function Count(): nat
      reads this
    {
      Cell(z, 0 - a)
    }

    ghost function Limbs(): seq<nat>
      reads this, x
      requires x.Length == KMAX
    {
      Ring(x[..], a, Count())
    }

    ghost predicate Good()
      reads this, x
    {
      && x.Length == KMAX && a < KMAX && z < KMAX
      && Count() > 0 && Limbs()[0] >= 1
      && Bounded(Limbs(), LIMB_MAX)
      && (!truncated ==> Bounded(Limbs(), BASE))
    }

    /** The number represented. */
    ghost function Value(): real
      reads this, x
      requires x.Length == KMAX
    {
      ValueOf(Limbs(), rp, e2)
    }

    /** Multiplies one limb and adds the carry. */
    method ShiftCell(k: nat, carry: nat, ghost l: seq<nat>, ghost i: nat) returns (c: nat)
      requires x.Length == KMAX && a < KMAX && z < KMAX && i < Count() <= |l| && k == Cell(a, i)
      requires UpTail(l[i + 1..]).1 == carry && Limbs() == l[..i + 1] + UpTail(l[i + 1..]).0
      modifies x
      ensures UpLimb(l[i], carry) == (x[k], c) && Limbs() == l[..i] + ([x[k]] + UpTail(l[i + 1..]).0)
    {
      hide UpLimb, Cell, UpTail, Ring;
      ghost var t := UpTail(l[i + 1..]).0;
      RingAt(x[..], a, Count(), i);
      assert x[k] == l[i];
      var (y, c') := UpLimb(x[k], carry);
      RingPut(x[..], a, Count(), i, y);
      x[k] := y;
      c := c';
      assert (l[..i + 1] + t)[i := y] == l[..i] + ([y] + t);
    }

    /** One pass multiplying all limbs by 2^29, least significant first. */
    method ShiftUp() returns (carry: nat)
      requires Good()
      modifies this`z, x
      ensures z < KMAX && x.Length == KMAX && 0 < Count() <= old(Count())
      ensures var l := old(Limbs()); var (t, c) := UpTail(l[1..]); var (y, c') := UpLimb(l[0], c);
        Limbs() == [y] + t && carry == c'
    {
      hide UpLimb, Cell, UpTail, Ring, Bounded, Good;
      GoodHas();
      ghost var l, n := Limbs(), Count();
      carry := 0;
      var k := Cell(z, -1);
      ghost var i := n - 1;
      CellFacts(a, z, i);
      UpTailNil(l);
      while true
        invariant z < KMAX && x.Length == KMAX && k == Cell(a, i) && 0 <= i < n
        invariant UpTail(l[i + 1..]).1 == carry
        invariant i < Count() <= n && Limbs() == l[..i + 1] + UpTail(l[i + 1..]).0
        decreases i
      {
        CellFacts(a, z, i);
        UpTailStep(l, i);
        carry := ShiftCell(k, carry, l, i);
        RingPrefix(x[..], a, Count(), i);
        if k == Cell(z, -1) && k != a && x[k] == 0 {
          z := k;
        }
        if k == a {
          break;
        }
        k := Cell(k, -1);
        i := i - 1;
      }
    }

    /** Puts a carry in front of the leading limb.  In a full ring the last two limbs are
        folded into one first. */
    method Prepend(carry: nat)
      requires x.Length == KMAX && a < KMAX && z < KMAX && Count() > 0 && Bounded(Limbs(), LIMB_MAX)
      requires 1 <= carry <= LIMB_MAX
      modifies this`a, this`z, this`rp, this`truncated, x
      ensures x.Length == KMAX && a < KMAX && z < KMAX && rp == old(rp) + 9
      ensures Count() <= old(Count()) + 1
      ensures old(Count()) < KMAX - 1 ==> Limbs() == [carry] + old(Limbs()) && truncated == old(truncated)
      ensures old(Count()) == KMAX - 1 ==> truncated && Limbs() == [carry] + Folded(old(Limbs()))
    {
      hide Cell, Ring, Bounded, Or, Folded;
      ghost var s, n := x[..], Count();
      PrependFacts(a, z);
      if n == KMAX - 1 { FoldRing(s, a, carry); } else { PutRing(s, a, n, carry); }
      rp := rp + 9;
      a := Cell(a, -1);
      if a == z {
        z := Cell(z, -1);
        x[Cell(z, -1)] := Or(x[Cell(z, -1)], x[z]);
        truncated := true;
      }
      x[a] := carry;
    }

    /** Scales up by 2^29 until enough digits stand before the radix point. */
    method Upscale() returns (ghost rounds: nat)
      requires Good() && rp % 9 == 0
      modifies this, x
      ensures Good() && rp % 9 == 0 && rp >= POINT && (rp == POINT ==> Limbs()[0] >= TH0)
      ensures rp <= POINT + 9 || rp == old(rp)
      ensures 9 * Count() - rp <= old(9 * Count() - rp)
      ensures old(9 * Count() - rp) + POINT + 9 < 9 * KMAX ==> truncated == old(truncated)
      ensures !truncated ==> !old(truncated) && Value() == old(Value())
      ensures Near(old(Value()), Value(), rounds) && rounds <= MostUp(old(rp))
    {
      hide Cell, Ring, UpTail, UpLimb, Pow, Frac, Near, ValueOf, OneStep, Bounded, UpLeft, MostUp;
      GoodHas();
      UpMost(rp, x[a]);
      RingAt(x[..], a, Count(), 0);
      CellIn(a);
      ValueNonNeg();
      NearSame(Value());
      rounds := 0;
      while rp < POINT || (rp == POINT && x[a] < TH0)
        invariant Good() && rp % 9 == 0 && (rp <= POINT + 9 || rp == old(rp))
        invariant 9 * Count() - rp <= old(9 * Count() - rp)
        invariant old(9 * Count() - rp) + POINT + 9 < 9 * KMAX ==> truncated == old(truncated)
        invariant !truncated ==> !old(truncated) && Value() == old(Value())
        invariant Limbs()[0] == x[a]
        invariant Near(old(Value()), Value(), rounds)
        invariant rounds + UpLeft(rp, x[a]) <= MostUp(old(rp))
        decreases if rp <= POINT + 9 then POINT + 9 - rp else 0, if x[a] < 2 then 1 else 0
      {
        ghost var w, r, lead := Value(), rp, x[a];
        UpOnce();
        UpDrops(r, lead, rp, x[a]);
        NearNext(old(Value()), w, Value(), rounds);
        rounds := rounds + 1;
      }
    }

    /** One round upward. */
    method UpOnce()
      requires Good() && rp <= POINT
      modifies this, x
      ensures Good() && Limbs()[0] == x[a] && (rp == old(rp) || rp == old(rp) + 9)
      ensures 9 * Count() - rp <= old(9 * Count() - rp)
      ensures old(Count()) < KMAX - 1 ==> truncated == old(truncated)
      ensures !truncated ==> !old(truncated) && Value() == old(Value())
      ensures OneStep(old(Value()), Value())
      ensures rp == old(rp) ==> old(Limbs())[0] < 2 && Limbs()[0] >= 2
    {
      hide Cell, Ring, UpTail, UpLimb, Pow, Frac, OneStep, ValueOf, Bounded, Folded;
      ghost var l, r, e := Limbs(), rp, e2;
      GoodHas();
      UpFacts(l);
      ValueNonNeg();
      NearSame(Value());
      e2 := e2 - 29;
      var carry := ShiftUp();
      ghost var m := Limbs();
      BaseBelow(m);
      if carry != 0 {
        CarryInFront(carry, m);
        Prepend(carry);
      }
      UpValue(l, m, carry, r, e2);
      if carry != 0 && |m| == KMAX - 1 { FoldedNear(carry, m, rp, e2); }
      RingAt(x[..], a, Count(), 0);
      CellIn(a);
    }

    lemma ValueNonNeg()
      requires Good()
      ensures Value() >= 0.0
    {
      hide Ring;
      NonNegValue(Limbs(), rp, e2);
    }

    lemma GoodHas()
      requires Good()
      ensures x.Length == KMAX && a < KMAX && z < KMAX && Count() > 0 && Limbs()[0] >= 1 && Bounded(Limbs(), LIMB_MAX)
    {
    }

    /** Divides one limb; what is left of it goes into the carry. */
    method DivideCell(k: nat, carry: nat, p: nat, ghost l: seq<nat>, ghost m: seq<nat>, ghost i: nat, ghost a0: nat,
        ghost n: nat) returns (c: nat)
      requires x.Length == KMAX && a0 < KMAX && i < n == |l| <= KMAX && k == Cell(a0, i) && p > 0 && BASE % p == 0
      requires |m| == n + 1 && Down(l[i..], carry, p) == m[i..] && Ring(x[..], a0, n) == m[..i] + l[i..]
      modifies x
      ensures Down(l[i + 1..], c, p) == m[i + 1..] && Ring(x[..], a0, n) == m[..i + 1] + l[i + 1..] && x[k] == m[i]
    {
      hide Cell, Ring, Down, DownLimb;
      RingAt(x[..], a0, n, i);
      DownStep(l, i, carry, p);
      var (y, c') := DownLimb(x[k], carry, p);
      c := c';
      TailStep(m, l, i, y, Down(l[i + 1..], c, p));
      RingPut(x[..], a0, n, i, y);
      x[k] := y;
    }

    /** One pass dividing all limbs by `p`, most significant first, where `p` is a power of ten
        (radix alignment) or of two (a shift); a leading limb that becomes 0 is dropped. */
    method Divide(p: nat) returns (carry: nat)
      requires Good() && p > 0 && BASE % p == 0
      modifies this`a, this`rp, x
      ensures var l := old(Limbs()); var m := Down(l, 0, p);
        && x.Length == KMAX && a < KMAX && carry == m[|l|]
        && (m[0] == 0 ==> rp == old(rp) - 9 && Count() == |l| - 1 && Limbs() == m[1..|l|])
        && (m[0] != 0 ==> rp == old(rp) && a == old(a) && Limbs() == m[..|l|])
    {
      hide Cell, Ring, Down, DownLimb, Bounded, Good;
      GoodHas();
      ghost var l, n, a0 := Limbs(), Count(), a;
      ghost var m := Down(l, 0, p);
      LeadOf(l, p);
      carry := 0;
      var k := a;
      ghost var i := 0;
      CellIn(a);
      CellFacts(a, z, 0);
      assert l[0..] == l && m[0..] == m;
      while k != z
        invariant 0 <= i <= n && k == Cell(a0, i) && x.Length == KMAX
        invariant a == (if i > 0 && m[0] == 0 then Cell(a0, 1) else a0) < KMAX
        invariant rp == if i > 0 && m[0] == 0 then old(rp) - 9 else old(rp)
        invariant Down(l[i..], carry, p) == m[i..]
        invariant Ring(x[..], a0, n) == m[..i] + l[i..]
        decreases n - i
      {
        CellFacts(a0, z, i);
        carry := DivideCell(k, carry, p, l, m, i, a0, n);
        if k == a && x[k] == 0 {
          a := Cell(a, 1);
          rp := rp - 9;
        }
        k := Cell(k, 1);
        i := i + 1;
        CellFacts(a0, z, 1);
      }
      CellFacts(a0, z, if i < KMAX then i else 0);
      assert i == n;
      DownUnfold(l[n..], carry, p);
      assert m[n..] == [carry];
      RingDrop(x[..], a0, n);
      DropFacts(a0, z);
    }

    /** Puts the last carry behind the limbs, or marks the last limb if the ring is full. */
    method Append(carry: nat)
      requires x.Length == KMAX && a < KMAX && z < KMAX && Bounded(Limbs(), LIMB_MAX) && carry <= LIMB_MAX
      requires Count() > 0 || carry > 0
      modifies this`z, this`truncated, x
      ensures x.Length == KMAX && z < KMAX && Bounded(Limbs(), LIMB_MAX)
      ensures truncated == (old(truncated) || (carry > 0 && old(Count()) == KMAX - 1)) && Count() <= old(Count()) + 1
      ensures !truncated || old(Count()) < KMAX - 1 ==>
        Limbs() == if carry == 0 then old(Limbs()) else old(Limbs()) + [carry]
      ensures old(Count()) == KMAX - 1 ==> Limbs() == if carry == 0 then old(Limbs()) else Marked(old(Limbs()))
    {
      hide Cell, Ring;
      if carry != 0 {
        ghost var n := Count();
        AppendFacts(a, z);
        RingExtend(x[..], a, n);
        if Cell(z, 1) != a {
          RingPut(x[..], a, n, n, carry);
          RingPut(x[..], a, n + 1, n, carry);
          x[z] := carry;
          z := Cell(z, 1);
        } else {
          RingAt(x[..], a, n, n - 1);
          RingPut(x[..], a, n, n - 1, Or(x[Cell(z, -1)], 1));
          x[Cell(z, -1)] := Or(x[Cell(z, -1)], 1);
          truncated := true;
        }
      }
    }

    /** Compares the top three limbs with those of 2^64 - 1. */
    method TooBig() returns (greater: bool)
      requires x.Length == KMAX && a < KMAX && z < KMAX
      ensures greater == Above(Limbs(), 0)
    {
      hide Cell, Ring;
      for i := 0 to LD_B1B_DIG
        invariant i <= Count() && Above(Limbs(), 0) == Above(Limbs(), i)
      {
        var k := Cell(a, i);
        CellFacts(a, z, i);
        AppendFacts(a, z);
        if i < Count() { RingAt(x[..], a, Count(), i); }
        BeyondCount(a, z, i);
        if k == z || x[k] < Threshold(i) {
          return false;
        }
        if x[k] > Threshold(i) {
          return true;
        }
      }
      return false;
    }

    /** Scales down until exactly a 64-bit integer stands before the radix point. */
    method Downscale() returns (ghost rounds: nat)
      requires Good() && rp % 9 == 0 && rp >= POINT && (rp == POINT ==> Limbs()[0] >= TH0)
      modifies this, x
      ensures Good() && rp == POINT && Top(Limbs()) >= 0x8000_0000_0000_0000
      ensures !truncated ==> !old(truncated) && Value() == old(Value()) && Top(Limbs()) < 0x1_0000_0000_0000_0000
      ensures old(Count() + Growth(rp, Limbs()[0])) < KMAX ==> truncated == old(truncated)
      ensures Near(old(Value()), Value(), rounds) && rounds <= MostDown(old(rp))
    {
      hide Cell, Ring, Down, DownLimb, Pow, Frac, Top, Growth, Above, Near, OneStep, ValueOf, RoundsLeft;
      ghost var most := Count() + Growth(rp, Limbs()[0]);
      TopLead(Limbs());
      ValueNonNeg();
      NearSame(Value());
      RoundsMost(rp, Limbs()[0]);
      rounds := 0;
      while true
        invariant Good() && rp % 9 == 0 && rp >= POINT
        invariant Near(old(Value()), Value(), rounds) && rounds + RoundsLeft(rp, Limbs()[0]) <= MostDown(old(rp))
        invariant Count() + Growth(rp, Limbs()[0]) <= most && (most < KMAX ==> truncated == old(truncated))
        invariant rp == POINT ==> Top(Limbs()) >= 0x8000_0000_0000_0000
        invariant !truncated ==> !old(truncated) && Value() == old(Value())
        decreases rp, Limbs()[0]
      {
        var greater := TooBig();
        AboveTop(Limbs());
        if !greater && rp == POINT {
          break;
        }
        var sh := if rp > 9 + POINT then 9 else 1;
        ghost var r, lead, w := rp, Limbs()[0], Value();
        HalveOnce(sh);
        GrowthDrops(r, lead, rp, Limbs()[0]);
        RoundsDrop(r, lead, rp, Limbs()[0]);
        NearNext(old(Value()), w, Value(), rounds);
        rounds := rounds + 1;
      }
    }

    /** One round of the downscale loop. */
    method HalveOnce(sh: nat)
      requires Good() && rp % 9 == 0 && rp >= POINT && (rp == POINT ==> Above(Limbs(), 0))
      requires sh == if rp > 9 + POINT then 9 else 1
      modifies this, x
      ensures Good() && rp % 9 == 0 && rp >= POINT
      ensures rp == POINT ==> Top(Limbs()) >= 0x8000_0000_0000_0000
      ensures !truncated ==> !old(truncated) && Value() == old(Value())
      ensures OneStep(old(Value()), Value())
      ensures rp < old(rp) || (rp == old(rp) && Limbs()[0] < old(Limbs())[0])
      ensures Count() <= old(Count()) + (if rp < old(rp) then 0 else 1)
      ensures old(Count()) < KMAX - 1 ==> truncated == old(truncated)
      ensures var lead := old(Limbs())[0] / if sh == 9 then 512 else 2;
        if lead == 0 then rp == old(rp) - 9 else rp == old(rp) && Limbs()[0] == lead
    {
      hide Cell, Ring, Down, DownLimb, Pow, Frac, Top, Above, ValueOf, Bounded, OneStep;
      ValueNonNeg();
      NearSame(Value());
      ghost var l, r, e := Limbs(), rp, e2;
      var p := if sh == 9 then 512 else 2;
      HalveLimbs(l, r, p);
      DownLead(l, p);
      e2 := e2 + sh;
      ghost var m := Shrink(p);
      ghost var kept := if m[0] == 0 then m[1..|l|] else m[..|l|];
      DownValue(l, m, kept, m[|l|], r, e, sh, p);
      if m[|l|] != 0 && |kept| == KMAX - 1 { MarkedNear(kept, m[|l|], rp, e2); }
    }

    /** A pass downward with its last carry put behind: `m` is what the limbs would be in a larger ring. */
    method Shrink(p: nat) returns (ghost m: seq<nat>)
      requires Good() && p >= 2 && BASE % p == 0
      requires Bounded(Down(Limbs(), 0, p), LIMB_MAX) && (Bounded(Limbs(), BASE) ==> Bounded(Down(Limbs(), 0, p), BASE))
      modifies this`a, this`z, this`rp, this`truncated, x
      ensures m == Down(old(Limbs()), 0, p) && |m| == old(Count()) + 1
      ensures Good() && rp == (if m[0] == 0 then old(rp) - 9 else old(rp))
      ensures Count() <= old(Count()) + (if m[0] == 0 then 0 else 1)
      ensures old(Count()) < KMAX - 1 ==> truncated == old(truncated)
      ensures Top(Limbs()) == Top(if m[0] == 0 then m[1..] else m) && Limbs()[0] == (if m[0] == 0 then m[1] else m[0])
      ensures !truncated ==> !old(truncated)
      ensures var n := old(Count()); var kept := if m[0] == 0 then m[1..n] else m[..n];
        && (m[n] != 0 && |kept| == KMAX - 1 ==>
          truncated && kept[0] >= 1 && Bounded(kept, LIMB_MAX) && m[n] <= LIMB_MAX)
        && Limbs() == if m[n] == 0 then kept else if |kept| < KMAX - 1 then kept + [m[n]] else Marked(kept)
    {
      hide Cell, Ring, Down, DownLimb, Top, Bounded;
      ghost var l := Limbs();
      m := Down(l, 0, p);
      ghost var kept := if m[0] == 0 then m[1..|l|] else m[..|l|];
      DownLead(l, p);
      var carry := Divide(p);
      SliceBounded(m);
      SplitLast(m);
      Append(carry);
      AppendKeepsTop(m, kept, carry, Limbs());
      if !truncated { AppendBounded(m, kept, carry, Limbs()); }
    }

    /** Moves the radix point to a limb boundary. */
    method AlignRadix()
      requires Good() && Count() < KMAX - 1 && Bounded(Limbs(), BASE)
      modifies this, x
      ensures Good() && rp % 9 == 0 && truncated == old(truncated) && e2 == old(e2)
      ensures Count() <= old(Count()) + 1 && old(rp) - 9 < rp < old(rp) + 9
      ensures Value() == old(Value())
    {
      hide Cell, Ring, Pow, Frac, ValueOf, Bounded, Good;
      if rp % 9 != 0 {
        AlignBy(9 - rp % 9);
      }
    }

    /** Divides by a power of ten and moves the radix point as far. */
    method AlignBy(k: nat)
      requires Good() && Count() < KMAX - 1 && Bounded(Limbs(), BASE) && 1 <= k <= 8
      modifies this, x
      ensures Good() && Count() <= old(Count()) + 1 && Value() == old(Value())
      ensures (rp == old(rp) + k || rp == old(rp) + k - 9) && truncated == old(truncated) && e2 == old(e2)
    {
      hide Cell, Ring, Down, DownLimb, Pow, Frac, ValueOf, Bounded;
      ghost var l, r := Limbs(), rp;
      var p10 := PowerOfTen(k);
      DownBounded(l, 0, p10);
      BaseBelow(Down(l, 0, p10));
      ghost var m := Shrink(p10);
      ghost var kept := if m[0] == 0 then m[1..|l|] else m[..|l|];
      rp := rp + k;
      AlignValue(l, m, kept, m[|l|], r, e2, k, p10);
    }

    /** Drops limbs that are 0 at the end. */
    method DropTrailing()
      requires Good() && a == 0 && Bounded(Limbs(), BASE)
      modifies this`z
      ensures Good() && Count() <= old(Count()) && Bounded(Limbs(), BASE) && Value() == old(Value())
    {
      hide Pow, Frac, ValueOf, Ring;
      RingFromZero(x[..], z);
      while x[z - 1] == 0
        invariant 0 < z <= old(z) && Limbs() == x[..z] && Value() == old(Value())
        decreases z
      {
        assert x[..z] == x[..z - 1] + [0];
        ValueZeros(x[..z - 1], rp, e2);
        z := z - 1;
        RingFromZero(x[..], z);
      }
    }

    /** A limb of 0 behind the others. */
    method AppendZero()
      requires Good() && Count() < LD_B1B_DIG
      modifies this`z, x
      ensures Good() && Limbs() == old(Limbs()) + [0]
      ensures Value() == old(Value()) && Top(Limbs()) == Top(old(Limbs()))
      ensures Bounded(old(Limbs()), BASE) ==> Bounded(Limbs(), BASE)
    {
      hide Cell, Ring, Pow, Frac, ValueOf, Top;
      ghost var l, n := Limbs(), Count();
      AppendFacts(a, z);
      RingPut(x[..], a, n, n, 0);
      RingPut(x[..], a, n + 1, n, 0);
      x[z] := 0;
      RingExtend(x[..], a, n);
      z := Cell(z, 1);
      assert Limbs() == l + [0];
      ValueZeros(l, rp, e2);
      TopAgree(Limbs(), l);
    }

    /** Reads the integer part off the top three limbs, adding limbs of 0 where there are
        none. */
    method Assemble() returns (y: nat)
      requires Good() && rp == POINT
      modifies this`z, x
      ensures y == Top(old(Limbs())) && y == Top(Limbs()) && Value() == old(Value())
      ensures Good() && (Bounded(old(Limbs()), BASE) ==> Bounded(Limbs(), BASE))
    {
      hide Cell, Ring, Pow, Frac, ValueOf, Int, Top, Bounded, Good;
      GoodHas();
      y := 0;
      IntNil(Limbs());
      for i := 0 to LD_B1B_DIG
        invariant Good() && i <= Count() && Value() == old(Value()) && Top(Limbs()) == Top(old(Limbs()))
        invariant (Bounded(old(Limbs()), BASE) ==> Bounded(Limbs(), BASE))
        invariant y == Int(Limbs()[..i])
      {
        GoodHas();
        var k := Cell(a, i);
        BeyondCount(a, z, i);
        if k == z {
          assert (Limbs() + [0])[..i] == Limbs()[..i];
          AppendZero();
        }
        GoodHas();
        RingAt(x[..], a, Count(), i);
        IntNext(Limbs(), i);
        y := BASE * y + x[k];
      }
      IntIsTop(Limbs());
    }
  }

  lemma IntIsTop(l: seq<nat>)
    requires |l| >= 3
    ensures Int(l[..3]) == Top(l)
  {
    hide Int;
    IntNext(l, 0);
    IntNext(l, 1);
    IntNext(l, 2);
    IntNil(l);
  }

  lemma IntNil(l: seq<nat>)
    ensures Int(l[..0]) == 0
  {
  }

  /** The table of powers of ten. */
  function PowerOfTen(k: nat): (p: nat)
    requires 1 <= k <= 8
    ensures p > 0 && BASE % p == 0
  {
    [10, 100, 1000, 10000, 100000, 1000000, 10000000, 100000000][k - 1]
  }

  lemma PowerOfTenIs(k: nat)
    requires 1 <= k <= 8
    ensures Pow(10.0, k) == PowerOfTen(k) as real
  {
    assert Pow(10.0, 1) == 10.0;
    assert Pow(10.0, 2) == 100.0;
    assert Pow(10.0, 3) == 1000.0;
    assert Pow(10.0, 4) == 10000.0;
    assert Pow(10.0, 5) == 100000.0;
    assert Pow(10.0, 6) == 1000000.0;
    assert Pow(10.0, 7) == 10000000.0;
    assert Pow(10.0, 8) == 100000000.0;
  }

  lemma FoldedBounded(l: seq<nat>, carry: nat)
    requires |l| >= 2 && Bounded(l, LIMB_MAX) && carry <= LIMB_MAX
    ensures l[|l| - 2] <= LIMB_MAX && l[|l| - 1] <= LIMB_MAX
    ensures var n := |l|; Bounded([carry] + l[..n - 2] + [Or(l[n - 2], l[n - 1])], LIMB_MAX)
  {
  }

  lemma BaseBelow(m: seq<nat>)
    ensures Bounded(m, BASE) ==> Bounded(m, LIMB_MAX)
  {
  }

  lemma CarryInFront(carry: nat, m: seq<nat>)
    requires carry <= LIMB_MAX && Bounded(m, LIMB_MAX)
    ensures Bounded([carry] + m, LIMB_MAX) && (carry <= BASE && Bounded(m, BASE) ==> Bounded([carry] + m, BASE))
    ensures |m| >= 2 ==> Bounded([carry] + Folded(m), LIMB_MAX)
  {
    hide Folded;
  }

  lemma AlignValue(l: seq<nat>, m: seq<nat>, kept: seq<nat>, carry: nat, rp: int, e2: int, k: nat, p: nat)
    requires 1 <= k <= 8 && p == PowerOfTen(k)
    requires l != [] && m == Down(l, 0, p) && carry == m[|l|]
    requires kept == if m[0] == 0 then m[1..|l|] else m[..|l|]
    ensures var r := if m[0] == 0 then rp - 9 else rp;
      ValueOf(if carry == 0 then kept else kept + [carry], r + k, e2) == ValueOf(l, rp, e2)
  {
    hide Down, Frac, Pow, ValueOf, PowerOfTen;
    DownFrac(l, 0, p);
    PowerOfTenIs(k);
    ValueAlign(m, l, rp, e2, k, p as real);
    if m[0] == 0 { ValueDropLead(m, rp + k, e2); }
    assert kept + [carry] == if m[0] == 0 then m[1..] else m;
    if carry == 0 { ValueZeros(kept, if m[0] == 0 then rp + k - 9 else rp + k, e2); }
  }

  /** A round's effect on the limbs `l` and the radix point `rp`. */
  lemma HalveLimbs(l: seq<nat>, rp: int, p: nat)
    requires l != [] && l[0] >= 1 && rp % 9 == 0 && rp >= POINT && (rp == POINT ==> Above(l, 0))
    requires p == if rp > 9 + POINT then 512 else 2
    requires Bounded(l, LIMB_MAX)
    ensures var m := Down(l, 0, p);
      && Bounded(m, LIMB_MAX) && (Bounded(l, BASE) ==> Bounded(m, BASE))
      && (m[0] == 0 ==> rp - 9 >= POINT && m[1] >= 1 && (rp - 9 == POINT ==> Top(m[1..]) >= 0x8000_0000_0000_0000))
      && (m[0] != 0 ==> m[0] < l[0] && (rp == POINT ==> Top(m) >= 0x8000_0000_0000_0000))
      && (m[0] == 0 && |l| == 1 ==> m[1] > 0)
  {
    hide Down, DownLimb, Top;
    DownLead(l, p);
    DownBounded(l, 0, p);
    AboveTop(l);
    if p == 2 { HalfTop(l); }
    TopLead(Down(l, 0, p)[1..]);
    assert BASE / p >= TH0;
  }

  lemma AppendKeepsTop(m: seq<nat>, kept: seq<nat>, carry: nat, l: seq<nat>)
    requires m != [] && kept + [carry] == (if m[0] == 0 then m[1..] else m) && l != []
    requires (l == if carry == 0 then kept else kept + [carry]) || (|kept| >= 4 && |l| >= 4 && l[..4] == kept[..4])
    ensures Top(l) == Top(if m[0] == 0 then m[1..] else m) && (kept != [] || carry != 0 ==> l[0] == (kept + [carry])[0])
  {
    var lead := if m[0] == 0 then m[1..] else m;
    if |kept| >= 4 && |l| >= 4 && l[..4] == kept[..4] {
      assert lead[..3] == kept[..4][..3] && l[..3] == l[..4][..3];
      assert l[0] == l[..4][0] && kept[0] == kept[..4][0];
    }
    TopAgree(lead, l);
  }

  lemma SplitLast(m: seq<nat>)
    requires |m| >= 2
    ensures var n := |m| - 1; m[..n] + [m[n]] == m && m[1..n] + [m[n]] == m[1..]
  {
  }

  lemma SliceBounded(m: seq<nat>)
    requires |m| >= 2 && Bounded(m, LIMB_MAX)
    ensures var n := |m| - 1;
      Bounded(m[1..n], LIMB_MAX) && Bounded(m[..n], LIMB_MAX) && m[n] <= LIMB_MAX
  {
  }

  lemma AppendBounded(m: seq<nat>, kept: seq<nat>, carry: nat, l: seq<nat>)
    requires m != [] && kept + [carry] == (if m[0] == 0 then m[1..] else m)
    requires l == if carry == 0 then kept else kept + [carry]
    ensures Bounded(m, BASE) ==> Bounded(l, BASE)
  {
    assert forall i | 0 <= i < |l| :: l[i] == (kept + [carry])[i] && (m[0] == 0 || l[i] == m[i]);
    assert m[0] == 0 ==> forall i | 0 <= i < |l| :: l[i] == m[i + 1];
  }

  function Threshold(i: nat): nat { if i == 0 then TH0 else if i == 1 then TH1 else TH2 }

  /** The limbs from `i` on are lexicographically above those of 2^64 - 1. */
  predicate Above(l: seq<nat>, i: nat)
    decreases LD_B1B_DIG - i
  {
    i < LD_B1B_DIG && i < |l| && (l[i] > Threshold(i) || (l[i] == Threshold(i) && Above(l, i + 1)))
  }

  lemma AboveTop(l: seq<nat>)
    ensures Above(l, 0) ==> Top(l) >= 0x1_0000_0000_0000_0000 && l[0] >= TH0
    ensures !Above(l, 0) && Bounded(l, BASE) ==> Top(l) < 0x1_0000_0000_0000_0000
  {
    assert Above(l, 3) == false;
    assert Above(l, 2) == (|l| > 2 && l[2] > TH2);
    assert Above(l, 1) == (|l| > 1 && (l[1] > TH1 || (l[1] == TH1 && Above(l, 2))));
  }

  lemma TopLead(l: seq<nat>)
    ensures l != [] && l[0] >= TH0 ==> Top(l) >= 0x8000_0000_0000_0000
  {
  }

  /** `Top` looks at three limbs and does not see trailing zeros. */
  lemma TopAgree(m: seq<nat>, l: seq<nat>)
    ensures l == m || l + [0] == m || (|m| >= 3 && |l| >= 3 && m[..3] == l[..3]) ==> Top(m) == Top(l)
  {
    if |m| >= 3 && |l| >= 3 && m[..3] == l[..3] {
      assert forall i | 0 <= i < 3 :: m[..3][i] == l[..3][i];
    }
  }

  lemma BeyondCount(a: nat, z: nat, i: nat)
    requires a < KMAX && z < KMAX && i < KMAX
    ensures i < Cell(z, 0 - a) ==> Cell(a, i) != z
    ensures i == Cell(z, 0 - a) ==> Cell(a, i) == z
  {
    hide Cell;
    CellTo(a, z);
    CellPlace(a, i);
  }

  lemma DownValue(l: seq<nat>, m: seq<nat>, kept: seq<nat>, carry: nat, rp: int, e2: int, sh: nat, p: nat)
    requires (sh == 1 && p == 2) || (sh == 9 && p == 512)
    requires l != [] && m == Down(l, 0, p) && carry == m[|l|]
    requires kept == if m[0] == 0 then m[1..|l|] else m[..|l|]
    ensures var r := if m[0] == 0 then rp - 9 else rp;
      ValueOf(if carry == 0 then kept else kept + [carry], r, e2 + sh) == ValueOf(l, rp, e2)
  {
    hide Down, Frac, Pow, ValueOf;
    DownFrac(l, 0, p);
    ValueScale(l, m, rp, e2, sh, p as real);
    if m[0] == 0 { ValueDropLead(m, rp, e2 + sh); }
    assert kept + [carry] == if m[0] == 0 then m[1..] else m;
    if carry == 0 { ValueZeros(kept, if m[0] == 0 then rp - 9 else rp, e2 + sh); }
  }

  lemma TailStep(m: seq<nat>, l: seq<nat>, i: nat, y: nat, rest: seq<nat>)
    requires i < |l| < |m| && m[i..] == [y] + rest
    ensures m[i] == y && rest == m[i + 1..]
    ensures (m[..i] + l[i..])[i := y] == m[..i + 1] + l[i + 1..] && (m[..i] + l[i..])[i] == l[i]
  {
    assert m[i..][0] == y && m[i..][1..] == m[i + 1..];
  }

  lemma DropFacts(a: nat, z: nat)
    requires a < KMAX && z < KMAX && Cell(z, 0 - a) > 0
    ensures Cell(z, 0 - Cell(a, 1)) == Cell(z, 0 - a) - 1
  {
  }

  lemma AppendFacts(a: nat, z: nat)
    requires a < KMAX && z < KMAX
    ensures var n := Cell(z, 0 - a);
      && Cell(a, n) == z && (Cell(z, 1) == a <==> n == KMAX - 1)
      && (n < KMAX - 1 ==> Cell(Cell(z, 1), 0 - a) == n + 1) && (n > 0 ==> Cell(z, -1) == Cell(a, n - 1))
  {
    hide Cell;
    var n := Cell(z, 0 - a);
    CellTo(a, z);
    CellAdd(a, n, 1);
    CellAdd(a, n, -1);
    CellIn(a);
    if n < KMAX - 1 {
      CellPlace(a, n + 1);
      CellsApart(a, 0);
    } else {
      CellWrap(a, 0);
    }
  }

  /** What one step up does to the leading limb and to the bounds. */
  lemma UpFacts(l: seq<nat>)
    requires l != [] && l[0] >= 1 && Bounded(l, LIMB_MAX)
    ensures var (t, c) := UpTail(l[1..]); var (y, c') := UpLimb(l[0], c);
      && Bounded([y] + t, BASE) && c' <= LIMB_MAX && (Bounded(l, BASE) ==> c' <= BASE)
      && (l[0] >= 2 ==> c' >= 1) && (c' == 0 ==> y >= 2)
  {
    UpTailBounded(l[1..]);
  }

  lemma UpValue(l: seq<nat>, m: seq<nat>, carry: nat, rp: int, e2: int)
    requires l != []
    requires var (t, c) := UpTail(l[1..]); var (y, c') := UpLimb(l[0], c); m == [y] + t && carry == c'
    ensures carry == 0 ==> ValueOf(m, rp, e2) == ValueOf(l, rp, e2 + 29)
    ensures carry != 0 ==> ValueOf([carry] + m, rp + 9, e2) == ValueOf(l, rp, e2 + 29)
  {
    hide UpTail, UpLimb, Frac, Pow, ValueOf;
    var (t, c) := UpTail(l[1..]);
    UpTailFrac(l[1..]);
    UpFrac(l[0], c, l[1..], t);
    assert l == [l[0]] + l[1..];
    if carry == 0 {
      TimesIs(536870912.0, Frac(l));
      ValueScale(m, l, rp, e2, 29, 536870912.0);
    } else {
      ValueAddLead(carry, m, l, rp, e2);
    }
  }

  lemma NonNegValue(l: seq<nat>, rp: int, e2: int)
    ensures ValueOf(l, rp, e2) >= 0.0
  {
    hide Frac, Pow, Times;
    FracNonNeg(l);
    NonNeg(Frac(l), Pow(10.0, rp));
    NonNeg(Times(Frac(l), Pow(10.0, rp)), Pow(2.0, e2));
  }

  /** Folding changes the number by a step at most. */
  lemma FoldedNear(carry: nat, m: seq<nat>, rp: int, e2: int)
    requires |m| == KMAX - 1 && Bounded(m, LIMB_MAX) && carry >= 1
    ensures OneStep(ValueOf([carry] + m, rp, e2), ValueOf([carry] + Folded(m), rp, e2))
  {
    var p, n := [carry] + m[..|m| - 2], |m|;
    assert [carry] + m == p + [m[n - 2], m[n - 1]] && [carry] + Folded(m) == p + [Or(m[n - 2], m[n - 1])];
    FoldNear(p, m[n - 2], m[n - 1], Or(m[n - 2], m[n - 1]), rp, e2);
  }

  /** So does marking instead of appending. */
  lemma MarkedNear(kept: seq<nat>, carry: nat, rp: int, e2: int)
    requires |kept| == KMAX - 1 && Bounded(kept, LIMB_MAX) && kept[0] >= 1 && carry <= LIMB_MAX
    ensures OneStep(ValueOf(kept + [carry], rp, e2), ValueOf(Marked(kept), rp, e2))
  {
    var n := |kept|;
    var p := kept[..n - 1];
    assert kept + [carry] == p + [kept[n - 1], carry];
    FoldNear(p, kept[n - 1], carry, Or(kept[n - 1], 1), rp, e2);
  }

  /** Where the ends of the ring go when a limb is put in front. */
  /** A limb put in front. */
  lemma PutRing(s: seq<nat>, a: nat, n: nat, v: nat)
    requires |s| == KMAX && a < KMAX && n < KMAX - 1
    ensures Ring(s[Cell(a, -1) := v], Cell(a, -1), n + 1) == [v] + Ring(s, a, n)
  {
    hide Cell, Ring;
    var b := Cell(a, -1);
    CellIn(b);
    RingExtend(s, a, n);
    RingPut(s, b, n + 1, 0, v);
  }

  lemma FoldSeq(x: nat, l: seq<nat>, v: nat)
    requires |l| >= 2 && Bounded(l, LIMB_MAX)
    ensures l[|l| - 2] <= LIMB_MAX && l[|l| - 1] <= LIMB_MAX
    ensures ([x] + l[..|l| - 1])[|l| - 1 := Or(l[|l| - 2], l[|l| - 1])][0 := v] == [v] + Folded(l)
  {
    hide Or;
  }

  /** A limb put in front of a full ring, with the last two limbs made one. */
  lemma FoldRing(s: seq<nat>, a: nat, v: nat)
    requires |s| == KMAX && a < KMAX && v <= LIMB_MAX && Bounded(Ring(s, a, KMAX - 1), LIMB_MAX)
    ensures var b, k, z := Cell(a, -1), Cell(a, KMAX - 3), Cell(a, KMAX - 2);
      s[k] <= LIMB_MAX && s[z] <= LIMB_MAX &&
        Ring(s[k := Or(s[k], s[z])][b := v], b, KMAX - 1) == [v] + Folded(Ring(s, a, KMAX - 1))
  {
    hide Cell, Ring, Bounded, Or, Folded;
    var b, k, z, l := Cell(a, -1), Cell(a, KMAX - 3), Cell(a, KMAX - 2), Ring(s, a, KMAX - 1);
    RingAt(s, a, KMAX - 1, KMAX - 3);
    RingAt(s, a, KMAX - 1, KMAX - 2);
    FoldedBounded(l, v);
    FullRing(a, b);
    CellIn(b);
    RingExtend(s, a, KMAX - 1);
    RingPrefix(s, b, KMAX, KMAX - 1);
    var y := Or(s[k], s[z]);
    RingPut(s, b, KMAX - 1, KMAX - 2, y);
    RingPut(s[k := y], b, KMAX - 1, 0, v);
    assert Ring(s, b, KMAX - 1) == [s[b]] + l[..KMAX - 2];
    FoldSeq(s[b], l, v);
  }

  lemma PrependFacts(a: nat, z: nat)
    requires a < KMAX && z < KMAX && Cell(z, 0 - a) > 0
    ensures var a', n := Cell(a, -1), Cell(z, 0 - a);
      && Cell(a', 1) == a && Cell(a', 0) == a' && 0 < n < KMAX
      && (a' == z <==> n == KMAX - 1) && (a' != z ==> Cell(z, 0 - a') == n + 1)
      && (a' == z ==> var z' := Cell(z, -1);
            Cell(z', 0 - a') == n && Cell(z', -1) == Cell(a', n - 1) == Cell(a, n - 2) && z' == Cell(a, n - 1))
  {
    hide Cell;
    var b, n := Cell(a, -1), Cell(z, 0 - a);
    CellIn(a);
    CellIn(b);
    CellAdd(a, -1, 1);
    CellTo(a, z);
    CellWrap(a, -1);
    CellPlace(a, KMAX - 1);
    if n == KMAX - 1 {
      FullRing(a, z);
    } else {
      CellPlace(b, n + 1);
      CellAdd(a, -1, n + 1);
    }
  }

  lemma FullRing(a: nat, z: nat)
    requires a < KMAX && z == Cell(a, -1)
    ensures Cell(z, 0 - a) == KMAX - 1 && Cell(Cell(z, -1), 0 - z) == KMAX - 1
    ensures Cell(Cell(z, -1), -1) == Cell(z, KMAX - 2) == Cell(a, KMAX - 3) && Cell(z, -1) == Cell(a, KMAX - 2)
  {
    hide Cell;
    CellWrap(a, -1);
    CellPlace(a, KMAX - 1);
    CellWrap(z, -1);
    CellPlace(z, KMAX - 1);
    CellAdd(z, -1, -1);
    CellWrap(z, -2);
    CellAdd(a, -1, -1);
    CellAdd(a, -1, KMAX - 2);
    CellWrap(a, -2);
  }
}
