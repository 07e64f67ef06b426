/**
 The hash map with linear probing: a key lies at one of eight slots from its home, and a table
 in which it finds no place is copied into one of twice the capacity.
 */
module HashMaps {
  import opened Bits
  import opened Options

  const WINDOW := 8
  const WORDS := 0x1_0000_0000

  type Key = seq<bv8>
  type Word = x: nat | x < 0x1_0000_0000

  datatype Slot<V> = Free | Used(key: Key, value: V)

  function Product(hash: Word): Word {
    hash * 2654435769 % WORDS
  }

  function Quotient(x: nat, p: nat): nat
    requires p > 0
  {
    x / p
  }

  /** Multiplicative hashing: the upper bits of the product. */
  function Home(hash: Word, log2: nat): (h: nat)
    requires 1 <= log2 <= 31
    ensures h < Pow2(log2)
  {
    HomeBelow(Product(hash), log2);
    Quotient(Product(hash), Pow2(32 - log2))
  }

  lemma HomeBelow(x: nat, log2: nat)
    requires log2 <= 32 && x < WORDS
    ensures Quotient(x, Pow2(32 - log2)) < Pow2(log2)
  {
    hide Pow2;
    Pow2Add(log2, 32 - log2);
    Pow2Is32();
    QuotientBelow(x, Pow2(32 - log2), Pow2(log2));
  }

  /** The product lies between the multiples of 2^(32 - log2) that belong to the home slot and to the next. */
  lemma HomeIs(hash: Word, log2: nat)
    requires 1 <= log2 <= 31
    ensures var p, step := hash * 2654435769 % 0x1_0000_0000, Pow2(32 - log2);
      Home(hash, log2) * step <= p < (Home(hash, log2) + 1) * step
  {
    hide Pow2;
    var step := Pow2(32 - log2);
    DivSmall(Product(hash), step);
    OneMore(step, Home(hash, log2));
  }

  /** The inverse of the multiplier modulo 2^32 takes it out again. */
  lemma Cancels(d: int, q: int)
    requires d * 2654435769 == 0x1_0000_0000 * q && -0x1_0000_0000 < d < 0x1_0000_0000
    ensures d == 0
  {
    var t := q * 340573321 - d * 210485888;
    assert d == 0x1_0000_0000 * t;
  }

  function Whole(x: nat): nat { x / 0x1_0000_0000 }

  function Rest(x: nat): nat { x % 0x1_0000_0000 }

  lemma WholeAndRest(x: nat)
    ensures x == 0x1_0000_0000 * Whole(x) + Rest(x)
  {
  }

  /** The multiplier is odd, so the products of different words are different. */
  lemma ProductsDiffer(a: Word, b: Word)
    requires a * 2654435769 % 0x1_0000_0000 == b * 2654435769 % 0x1_0000_0000
    ensures a == b
  {
    var x: nat, y: nat := a * 2654435769, b * 2654435769;
    assert Rest(x) == Rest(y);
    hide Whole, Rest;
    WholeAndRest(x);
    WholeAndRest(y);
    Cancels(a - b, Whole(x) - Whole(y));
  }

  /** The homes in the largest table are the products halved. */
  lemma LastHome(hash: Word)
    ensures var p := hash * 2654435769 % 0x1_0000_0000;
      p == 2 * Home(hash, 31) || p == 2 * Home(hash, 31) + 1
  {
    HomeIs(hash, 31);
    assert Pow2(1) == 2;
  }

  /** In the largest table no three hashes share a home slot. */
  lemma HomesOfTwo(a: Word, b: Word, c: Word)
    requires Home(a, 31) == Home(b, 31) == Home(c, 31)
    ensures a == b || b == c || a == c
  {
    hide Home;
    LastHome(a);
    LastHome(b);
    LastHome(c);
    if a * 2654435769 % 0x1_0000_0000 == b * 2654435769 % 0x1_0000_0000 {
      ProductsDiffer(a, b);
    } else if b * 2654435769 % 0x1_0000_0000 == c * 2654435769 % 0x1_0000_0000 {
      ProductsDiffer(b, c);
    } else {
      ProductsDiffer(a, c);
    }
  }

  // ---------- a table as a sequence of slots ----------

  /** The table holds exactly the pairs of the map, each once. */
  ghost predicate Holds<V(!new)>(s: seq<Slot<V>>, m: map<Key, V>) {
    && (forall i | 0 <= i < |s| && s[i].Used? :: s[i].key in m && m[s[i].key] == s[i].value)
    && (forall k | k in m :: exists i :: At(s, i, k))
    && (forall i, j | 0 <= i < |s| && 0 <= j < |s| && s[i].Used? && s[j].Used? && s[i].key == s[j].key :: i == j)
  }

  ghost predicate At<V(!new)>(s: seq<Slot<V>>, i: int, k: Key) { 0 <= i < |s| && s[i].Used? && s[i].key == k }

  /** Every key is within its probe window. */
  ghost predicate Placed<V(!new)>(s: seq<Slot<V>>, hash: Key -> Word, log2: nat)
    requires 1 <= log2 <= 31
  {
    forall i | 0 <= i < |s| && s[i].Used? :: Home(hash(s[i].key), log2) <= i < Home(hash(s[i].key), log2) + WINDOW
  }

  /** Filling a free slot, or the key's own. */
  lemma HoldsPut<V(!new)>(s: seq<Slot<V>>, m: map<Key, V>, i: nat, k: Key, v: V)
    requires Holds(s, m) && i < |s|
    requires if k in m then At(s, i, k) else s[i] == Free
    ensures Holds(s[i := Used(k, v)], m[k := v])
  {
    var t, n := s[i := Used(k, v)], m[k := v];
    forall l | l in n ensures exists j :: At(t, j, l) {
      if l == k {
        assert At(t, i, k);
      } else {
        var j :| At(s, j, l);
        assert At(t, j, l);
      }
    }
  }

  /** Emptying a slot removes its key and hides no other one. */
  lemma HoldsRemove<V(!new)>(s: seq<Slot<V>>, m: map<Key, V>, i: nat)
    requires Holds(s, m) && i < |s| && s[i].Used?
    ensures Holds(s[i := Free], m - {s[i].key}) && s[i].key in m
  {
    var t, k := s[i := Free], s[i].key;
    var n := m - {k};
    forall l | l in n ensures exists j :: At(t, j, l) {
      var j :| At(s, j, l);
      assert At(t, j, l);
    }
  }

  lemma HoldsEmpty<V(!new)>(s: seq<Slot<V>>, m: map<Key, V>)
    requires forall i | 0 <= i < |s| :: s[i] == Free
    ensures Holds(s, m) <==> m == map[]
  {
    assert forall i, k :: !At(s, i, k);
    if Holds(s, m) { assert forall k :: k !in m; }
  }

  function Count<V>(s: seq<Slot<V>>): nat {
    if s == [] then 0 else Count(s[..|s| - 1]) + if s[|s| - 1].Used? then 1 else 0
  }

  /** The number of slots in use is the size of the map. */
  lemma {:induction false} CountIsSize<V(!new)>(s: seq<Slot<V>>, m: map<Key, V>)
    requires Holds(s, m)
    ensures Count(s) == |m|
    decreases |s|
  {
    if s == [] {
      HoldsEmpty(s, m);
    } else {
      var k := |s| - 1;
      var n := if s[k].Used? then m - {s[k].key} else m;
      if s[k].Used? { SizeRemove(m, s[k].key); }
      HoldsButLast(s, m, n);
      CountIsSize(s[..k], n);
    }
  }

  lemma HoldsButLast<V(!new)>(s: seq<Slot<V>>, m: map<Key, V>, n: map<Key, V>)
    requires Holds(s, m) && s != [] && n == if s[|s| - 1].Used? then m - {s[|s| - 1].key} else m
    ensures Holds(s[..|s| - 1], n)
  {
    var t := s[..|s| - 1];
    forall l | l in n ensures exists j :: At(t, j, l) {
      var j :| At(s, j, l);
      assert At(t, j, l);
    }
  }

  // ---------- when a table has no place for a key ----------

  /** No slot of the key's window is free or its own. */
  ghost predicate Full<V(!new)>(s: seq<Slot<V>>, h: nat, key: Key) {
    forall i | h <= i < h + WINDOW && i < |s| :: s[i].Used? && s[i].key != key
  }

  /** Where a table stores a key: at its slot, or else at the first free slot of its window. */
  ghost predicate Lands<V(!new)>(s: seq<Slot<V>>, m: map<Key, V>, h: nat, key: Key, at: nat) {
    && h <= at < h + WINDOW && at < |s|
    && if key in m then At(s, at, key) else s[at] == Free && forall i | h <= i < at :: s[i].Used?
  }

  function Interval(lo: int, hi: int): (r: set<int>)
    requires lo <= hi
    ensures |r| == hi - lo && forall t :: t in r <==> lo <= t < hi
    decreases hi - lo
  {
    if lo == hi then {} else {hi - 1} + Interval(lo, hi - 1)
  }

  lemma SubsetSize<T>(a: set<T>, b: set<T>)
    requires a <= b
    ensures |a| <= |b| && (|a| == |b| ==> a == b)
  {
    assert b == a + (b - a);
  }

  /** A window full of keys holds as many different ones. */
  lemma {:induction false} FullWindow<V(!new)>(s: seq<Slot<V>>, m: map<Key, V>, h: nat, n: nat) returns (keys: set<Key>)
    requires Holds(s, m) && h + n <= |s| && forall i | h <= i < h + n :: s[i].Used?
    ensures |keys| == n && keys <= m.Keys && forall k | k in keys :: exists i :: h <= i < h + n && At(s, i, k)
    decreases n
  {
    keys := {};
    if n > 0 {
      var i := h + n - 1;
      keys := FullWindow(s, m, h, n - 1);
      assert At(s, i, s[i].key);
      keys := keys + {s[i].key};
    }
  }

  /** Eight other keys with home slots so close to the key's that they can fill its window. */
  ghost predicate Crowd(some: set<Key>, key: Key, hash: Key -> Word, log2: nat)
    requires 1 <= log2 <= 31
  {
    |some| == WINDOW && key !in some && forall k | k in some :: Near(k, key, hash, log2)
  }

  predicate Near(k: Key, key: Key, hash: Key -> Word, log2: nat)
    requires 1 <= log2 <= 31
  {
    Home(hash(key), log2) - WINDOW < Home(hash(k), log2) < Home(hash(key), log2) + WINDOW
  }

  /** What keeps a key out of a table: as many keys as slots, or a crowd around its home. */
  ghost predicate Jammed(keys: set<Key>, key: Key, hash: Key -> Word, log2: nat)
    requires 1 <= log2 <= 31
  {
    |keys| == Pow2(log2) || exists some: set<Key> :: some <= keys && Crowd(some, key, hash, log2)
  }

  lemma WindowIsCrowd<V(!new)>(s: seq<Slot<V>>, m: map<Key, V>, hash: Key -> Word, log2: nat, key: Key)
    requires 1 <= log2 <= 31 && Holds(s, m) && Placed(s, hash, log2)
    requires Home(hash(key), log2) + WINDOW <= |s| && Full(s, Home(hash(key), log2), key)
    ensures Jammed(m.Keys, key, hash, log2)
  {
    var h := Home(hash(key), log2);
    var keys := FullWindow(s, m, h, WINDOW);
    forall k | k in keys ensures Near(k, key, hash, log2) && k != key {
      var i :| h <= i < h + WINDOW && At(s, i, k);
    }
    assert Crowd(keys, key, hash, log2);
  }

  /** Fewer than eight pairs never keep a key out of the largest table. */
  lemma JamIsLarge(keys: set<Key>, key: Key, hash: Key -> Word)
    requires Jammed(keys, key, hash, 31)
    ensures |keys| >= 8
  {
    Pow2Is32();
    if |keys| < Pow2(31) {
      var some :| some <= keys && Crowd(some, key, hash, 31);
      SubsetSize(some, keys);
    }
  }

  /** Hashes whose products with the multiplier are less than 16 apart. */
  predicate NextTo(a: Word, b: Word) {
    -16 < a * 2654435769 % 0x1_0000_0000 - b * 2654435769 % 0x1_0000_0000 < 16
  }

  /** Eight of the keys, the key itself not among them, have hashes next to its hash. */
  ghost predicate Gathers(some: set<Key>, keys: set<Key>, key: Key, hash: Key -> Word) {
    some <= keys && |some| == 8 && key !in some && forall k | k in some :: NextTo(hash(k), hash(key))
  }

  ghost predicate Gathered(keys: set<Key>, key: Key, hash: Key -> Word) {
    exists some: set<Key> :: Gathers(some, keys, key, hash)
  }

  lemma NearIsNext(k: Key, key: Key, hash: Key -> Word)
    requires Near(k, key, hash, 31)
    ensures NextTo(hash(k), hash(key))
  {
    hide Home;
    LastHome(hash(k));
    LastHome(hash(key));
  }

  /** What keeps a key out of the largest table, by the hashes alone. */
  lemma JamGathers(keys: set<Key>, key: Key, hash: Key -> Word)
    requires Jammed(keys, key, hash, 31)
    ensures |keys| == 0x8000_0000 || Gathered(keys, key, hash)
  {
    hide Near, NextTo;
    Pow2Is32();
    if |keys| != Pow2(31) {
      var some :| some <= keys && Crowd(some, key, hash, 31);
      forall k | k in some ensures NextTo(hash(k), hash(key)) { NearIsNext(k, key, hash); }
      assert Gathers(some, keys, key, hash);
    }
  }

  ghost function SlotOf<V(!new)>(s: seq<Slot<V>>, m: map<Key, V>, k: Key): (i: int)
    requires Holds(s, m) && k in m
    ensures At(s, i, k)
  {
    var i :| At(s, i, k); i
  }

  lemma {:induction false} SlotsOf<V(!new)>(s: seq<Slot<V>>, m: map<Key, V>, keys: set<Key>) returns (slots: set<int>)
    requires Holds(s, m) && keys <= m.Keys
    ensures |slots| == |keys| && forall i :: i in slots <==> exists k :: k in keys && At(s, i, k)
    decreases |keys|
  {
    slots := {};
    if keys != {} {
      var k :| k in keys;
      var rest := SlotsOf(s, m, keys - {k});
      slots := rest + {SlotOf(s, m, k)};
    }
  }

  /** Keys of one hash lie in its window. */
  lemma InWindow<V(!new)>(s: seq<Slot<V>>, hash: Key -> Word, log2: nat, some: set<Key>, key: Key, i: int)
    requires 1 <= log2 <= 31 && Placed(s, hash, log2) && (forall k | k in some :: hash(k) == hash(key))
    requires exists k :: k in some && At(s, i, k)
    ensures Home(hash(key), log2) <= i < Home(hash(key), log2) + WINDOW
  {
    hide Home;
    var k :| k in some && At(s, i, k);
  }

  /** Eight keys of one hash fill its window at every capacity, so a ninth key never finds a place. */
  lemma OneHashOnly<V(!new)>(s: seq<Slot<V>>, m: map<Key, V>, hash: Key -> Word, log2: nat, some: set<Key>, key: Key)
    requires 1 <= log2 <= 31 && Holds(s, m) && Placed(s, hash, log2) && |s| == Pow2(log2) + WINDOW
    requires some <= m.Keys && |some| == WINDOW && key !in m && forall k | k in some :: hash(k) == hash(key)
    ensures Full(s, Home(hash(key), log2), key)
  {
    hide Home, Placed, Holds, Pow2;
    var h := Home(hash(key), log2);
    var slots := SlotsOf(s, m, some);
    forall i | i in slots ensures h <= i < h + WINDOW {
      InWindow(s, hash, log2, some, key, i);
    }
    SubsetSize(slots, Interval(h, h + WINDOW));
    forall i | h <= i < h + WINDOW && i < |s| ensures s[i].Used? && s[i].key != key {
      assert i in Interval(h, h + WINDOW);
      var k :| k in some && At(s, i, k);
    }
  }

  ghost predicate OfOneHash<V(!new)>(some: set<Key>, m: map<Key, V>, hash: Key -> Word, key: Key) {
    some <= m.Keys && |some| == 8 && forall k | k in some :: hash(k) == hash(key)
  }

  /** A map that has eight other keys of the key's hash. */
  ghost predicate Crowded<V(!new)>(m: map<Key, V>, hash: Key -> Word, key: Key) {
    key !in m && exists some :: OfOneHash(some, m, hash, key)
  }

  // ---------- moving to a table of twice the capacity ----------

  /** Doubling the capacity puts a home slot at one of the two slots that take its place. */
  lemma HomeDoubles(hash: Word, log2: nat)
    requires 1 <= log2 <= 30
    ensures 2 * Home(hash, log2) <= Home(hash, log2 + 1) <= 2 * Home(hash, log2) + 1
  {
    hide Pow2;
    Pow2Next(31 - log2);
    assert 31 - log2 + 1 == 32 - log2 && 32 - (log2 + 1) == 31 - log2;
    HalfQuotient(Product(hash), Pow2(31 - log2));
  }

  lemma HalfQuotient(x: nat, p: nat)
    requires p >= 1
    ensures 2 * Quotient(x, 2 * p) <= Quotient(x, p) <= 2 * Quotient(x, 2 * p) + 1
  {
    var q, r := x / (2 * p), x % (2 * p);
    DivSmall(x, 2 * p);
    assert x == p * (2 * q) + r by { TwoOut(p, q); }
    if r < p { RemainderIs(x, p, 2 * q, r); } else { OneMore(p, 2 * q); RemainderIs(x, p, 2 * q + 1, r - p); }
  }

  lemma TwoOut(p: nat, q: nat)
    ensures 2 * p * q == p * (2 * q)
  {
  }

  lemma OneMore(p: nat, q: nat)
    ensures p * (q + 1) == p * q + p
  {
  }

  /** The slots in use after the pairs before slot `i` have moved, each with the slot it came from:
      no pair has gone further than to the second of the two slots that take the place of its own. */
  ghost predicate Moved<V(!new)>(s: seq<Slot<V>>, from: map<int, int>, i: nat) {
    && (forall n | 0 <= n < |s| && s[n].Used? :: n in from)
    && (forall n | n in from :: 0 <= from[n] < i && n <= 2 * from[n] + 1)
    && (forall n, m | n in from && m in from && from[n] == from[m] :: n == m)
  }

  lemma {:induction false} Sources(from: map<int, int>, lo: int, hi: int) returns (r: set<int>)
    requires lo <= hi && (forall n | lo <= n < hi :: n in from)
    requires forall n, m | n in from && m in from && from[n] == from[m] :: n == m
    ensures |r| == hi - lo && forall t :: t in r <==> exists n :: lo <= n < hi && n in from && from[n] == t
    decreases hi - lo
  {
    r := {};
    if lo < hi {
      var rest := Sources(from, lo, hi - 1);
      r := rest + {from[hi - 1]};
      forall t | t in r ensures exists n :: lo <= n < hi && n in from && from[n] == t {
        if t !in rest { assert from[hi - 1] == t; }
      }
    }
  }

  /** A pair from slot `i`, `i - g` slots from its home `g`, meets at most that many pairs at its new home. */
  lemma MeetsFew<V(!new)>(s: seq<Slot<V>>, from: map<int, int>, i: nat, g: nat, h: nat, at: nat)
    requires Moved(s, from, i) && g <= i && 2 * g <= h <= 2 * g + 1 && h <= at <= |s|
    requires forall n | h <= n < at :: s[n].Used?
    ensures at - h <= i - g && at <= 2 * i + 1
  {
    var r := Sources(from, h, at);
    assert r <= Interval(g, i);
    SubsetSize(r, Interval(g, i));
  }

  class HashMap<V(!new)> {
    var data: array<Slot<V>>
    var log2: nat
    var size: nat
    const hash: Key -> Word
    ghost var model: map<Key, V>

    ghost predicate Valid()
      reads this, data
    {
      && 1 <= log2 <= 31 && data.Length == Pow2(log2) + WINDOW
      && Holds(data[..], model) && Placed(data[..], hash, log2) && size == |model| <= Pow2(log2) && [] !in model
    }

    /** When the search for a place gives up. */
    ghost predicate Refuses(key: Key)
      reads this, data
      requires 1 <= log2 <= 31
    {
      |model| == Pow2(log2) || Full(data[..], Home(hash(key), log2), key)
    }

    /** A zeroed table; `log2` comes from rounding the capacity up to a power of two. */
    constructor (log2: nat, hash: Key -> Word)
      requires 1 <= log2 <= 31
      ensures Valid() && fresh(data) && model == map[] && this.log2 == log2 && this.hash == hash
      ensures forall i | 0 <= i < data.Length :: data[i] == Free
    {
      data := new Slot<V>[Pow2(log2) + WINDOW](i => Free);
      this.log2 := log2;
      this.hash := hash;
      size := 0;
      model := map[];
      new;
      HoldsEmpty(data[..], map[]);
    }

    /** The size field counts the slots in use. */
    method NumEntries() returns (n: nat)
      requires Valid()
      ensures n == |model| == Count(data[..])
    {
      CountIsSize(data[..], model);
      return size;
    }

    /** The probe of a window that lookups and removals share. */
    method Probe(key: Key) returns (found: bool, index: nat)
      requires Valid()
      ensures found <==> key in model
      ensures found ==> index < data.Length && data[index] == Used(key, model[key])
    {
      hide Holds, Placed, Home;
      var curr := Home(hash(key), log2);
      for i := 0 to WINDOW
        invariant forall j | curr <= j < curr + i :: !At(data[..], j, key)
      {
        index := curr + i;
        var slot := data[index];
        assert slot == data[..][index];
        if slot.Used? && slot.key == key {
          HeldAt(data[..], model, index);
          return true, index;
        }
      }
      NotInWindow(data[..], model, hash, log2, key);
      return false, 0;
    }

    method Get(key: Key) returns (r: Option<V>)
      requires Valid()
      ensures r == if key != [] && key in model then Some(model[key]) else None
    {
      if key == [] {
        return None;
      }
      var found, index := Probe(key);
      return if found then Some(data[index].value) else None;
    }

    method Remove(key: Key) returns (r: nat)
      requires Valid()
      modifies this, data
      ensures Valid() && data == old(data) && log2 == old(log2)
      ensures r == (if key != [] && key in old(model) then 0 else 1)
      ensures model == if r == 0 then old(model) - {key} else old(model)
    {
      hide Holds, Placed, Home;
      if key == [] {
        return 1;
      }
      var found, index := Probe(key);
      if found {
        Blank(index);
        return 0;
      }
      return 1;
    }

    method Blank(index: nat)
      requires Valid() && index < data.Length && data[index].Used?
      modifies this`size, this`model, data
      ensures Valid() && data[..] == old(data[..])[index := Free] && model == old(model) - {old(data[index]).key}
      ensures old(data[index]).key in old(model)
    {
      hide Holds, Placed, Home;
      ghost var s, key := data[..], data[index].key;
      HoldsRemove(s, model, index);
      PlacedPut(s, hash, log2, index, Free);
      data[index] := Free;
      size := size - 1;
      SizeRemove(model, key);
      model := model - {key};
      assert data[..] == s[index := Free];
    }

    /** Where a key lies or could lie; `ok` is false when the table is full or the window is. */
    method Find(key: Key) returns (ok: bool, index: nat)
      requires Valid()
      ensures ok <==> !Refuses(key)
      ensures ok ==> Lands(data[..], model, Home(hash(key), log2), key, index)
    {
      hide Home, Holds, Placed, Full, Lands;
      if size == Pow2(log2) {
        return false, 0;
      }
      ok, index := Scan(key);
    }

    /** Its loop over the window. */
    method Scan(key: Key) returns (ok: bool, index: nat)
      requires Valid()
      ensures ok <==> !Full(data[..], Home(hash(key), log2), key)
      ensures ok ==> Lands(data[..], model, Home(hash(key), log2), key, index)
    {
      hide Home, Holds, Placed, Seen, Full, Lands, Pow2;
      var curr := Home(hash(key), log2);
      var free: nat := WORDS - 1;
      ghost var s := data[..];
      Pow2Mono(log2, 31);
      Pow2Is32();
      SeenStart(s, curr, key);
      for i := 0 to WINDOW
        invariant Seen(s, curr, i, free, key)
      {
        var slot := data[curr + i];
        assert slot == s[curr + i];
        SeenNext(s, curr, i, free, key);
        if slot.Free? {
          free := if free < curr + i then free else curr + i;
        } else if slot.key == key {
          HeldAt(s, model, curr + i);
          FoundLands(s, model, curr, i, key);
          return true, curr + i;
        }
      }
      SeenAll(s, model, hash, log2, curr, free, key);
      if free == WORDS - 1 {
        return false, 0;
      }
      return true, free;
    }

    /** Stores a pair, in a larger table if need be; 1 for no key, or when even the largest table refuses it. */
    method Put(key: Key, value: V) returns (r: nat, ghost at: nat)
      requires Valid()
      modifies this, data
      ensures Valid() && (data == old(data) || fresh(data)) && log2 >= old(log2)
      ensures r == 0 ==> key != [] && model == old(model)[key := value]
      ensures r != 0 <==> key == [] || (log2 == 31 && model == old(model) && Refuses(key))
      ensures r != 0 && key != [] ==> Jammed(model.Keys, key, hash, 31)
      ensures r != 0 && key != [] ==> |model.Keys| == 0x8000_0000 || Gathered(model.Keys, key, hash)
      ensures old(Crowded(model, hash, key)) ==> r != 0
      ensures key == [] ==> unchanged(this) && unchanged(data)
      ensures key != [] && !old(Refuses(key)) ==>
        && r == 0 && data == old(data) && log2 == old(log2) && at < data.Length &&
          data[..] == old(data[..])[at := Used(key, value)]
        && Lands(old(data[..]), old(model), Home(hash(key), log2), key, at)
      decreases 32 - log2, 1
    {
      hide Holds, Placed, Home, Jammed, Lands, Full, Crowded, Gathered;
      at := 0;
      if key == [] {
        return 1, at;
      }
      var ok, index := Find(key);
      if Crowded(model, hash, key) { StaysOut(key); }
      while !ok
        invariant Valid() && model == old(model) && (data == old(data) || fresh(data)) && log2 >= old(log2)
        invariant ok ==> Lands(data[..], model, Home(hash(key), log2), key, index)
        invariant ok <==> !Refuses(key)
        invariant Crowded(model, hash, key) ==> !ok
        invariant !old(Refuses(key)) ==> ok && data == old(data) && data[..] == old(data[..]) && log2 == old(log2)
        decreases 32 - log2
      {
        var failed := Rehash();
        if failed != 0 {
          KeepsOut(key);
          JamGathers(model.Keys, key, hash);
          return 1, at;
        }
        ok, index := Find(key);
        if Crowded(model, hash, key) { StaysOut(key); }
      }
      LandsIn(data[..], model, Home(hash(key), log2), key, index);
      assert !old(Refuses(key)) ==> Lands(old(data[..]), old(model), Home(hash(key), log2), key, index);
      Fill(key, value, index);
      at := index;
      ValueKept(old(model), key, value);
      NotFull(data[..], Home(hash(key), log2), key, index);
      return 0, at;
    }

    /** What a table that refuses a key has in it. */
    lemma KeepsOut(key: Key)
      requires Valid() && Refuses(key)
      ensures Jammed(model.Keys, key, hash, log2)
    {
      hide Holds, Placed, Home, Full, Crowd;
      assert |model| == |model.Keys|;
      if |model| != Pow2(log2) { WindowIsCrowd(data[..], model, hash, log2, key); }
    }

    /** Eight other keys of its hash keep a key out at any capacity. */
    lemma StaysOut(key: Key)
      requires Valid() && Crowded(model, hash, key)
      ensures Refuses(key)
    {
      hide Holds, Placed, Home, Full;
      var some :| OfOneHash(some, model, hash, key);
      OneHashOnly(data[..], model, hash, log2, some, key);
    }

    method Fill(key: Key, value: V, index: nat)
      requires Valid() && key != [] && Home(hash(key), log2) <= index < Home(hash(key), log2) + WINDOW
      requires index < data.Length
      requires if key in model then At(data[..], index, key) else data[index] == Free && |model| < Pow2(log2)
      modifies this`size, this`model, data
      ensures Valid() && model == old(model)[key := value] && data[..] == old(data[..])[index := Used(key, value)]
    {
      hide Holds, Placed, Home;
      ghost var s := data[..];
      HoldsPut(s, model, index, key, value);
      PlacedPut(s, hash, log2, index, Used(key, value));
      SizePut(model, key, value);
      assert s[index] == data[index];
      var used := data[index].Used?;
      if used { HeldAt(s, model, index); }
      data[index] := Used(key, value);
      if !used {
        size := size + 1;
      }
      model := model[key := value];
      assert data[..] == s[index := Used(key, value)];
    }

    /** Puts the pair of one slot, if there is one, into the table of twice the capacity and blanks the
        slot.  The pairs moved before leave it a place. */
    method MoveTo(other: HashMap<V>, i: nat, ghost all: map<Key, V>, ghost from: map<int, int>)
      returns (r: nat, ghost from': map<int, int>)
      requires Valid() && other.Valid() && other != this && other.data != data && other.hash == hash && i < data.Length
      requires other.log2 == log2 + 1 && Splits(all, model, other.model) && |all| <= Pow2(log2)
      requires Moved(other.data[..], from, i)
      modifies this`size, this`model, data, other, other.data
      ensures r == 0 && Valid() && data[..] == old(data[..])[i := Free] && Splits(all, model, other.model)
      ensures other.Valid() && other.data == old(other.data) && other.log2 == old(other.log2)
      ensures Moved(other.data[..], from', i + 1)
      decreases 32 - other.log2, 2
    {
      hide Holds, Placed, Home, Splits, SubMap, Lands, Full, Moved, Jammed;
      from' := from;
      var p := data[i];
      assert p == data[..][i];
      if p.Used? {
        HeldAt(data[..], model, i);
        SplitsMove(all, model, other.model, p.key);
        SplitsKeys(all, model, other.model);
        ghost var g, h, s := Home(hash(p.key), log2), Home(hash(p.key), other.log2), other.data[..];
        HomeDoubles(hash(p.key), log2);
        PlacedAt(data[..], hash, log2, i);
        HasRoom(s, from, i, g, h, p.key);
        SplitsRoom(all, model, other.model, p.key);
        Pow2Next(log2);
        ghost var at;
        var full;
        full, at := other.Put(p.key, p.value);
        MovedNext(s, old(other.model), from, i, g, h, p.key, p.value, at);
        from' := from[at := i];
        Blank(i);
      } else {
        MovedLess(other.data[..], from, i);
        assert data[..] == old(data[..])[i := Free];
      }
      return 0, from';
    }

    /** Moves all pairs to a table of twice the capacity.  Every pair finds a place there at once, so this
        fails only when the capacity cannot be doubled, before anything has moved. */
    method Rehash() returns (r: nat)
      requires Valid()
      modifies this, data
      ensures Valid() && (data == old(data) || fresh(data)) && model == old(model)
      ensures r != 0 <==> old(log2) == 31
      ensures if r == 0 then log2 == old(log2) + 1 else unchanged(this) && unchanged(data)
      decreases 32 - log2, 0
    {
      hide Holds, Placed, Home, Splits, SubMap, Jammed, Moved, Lands, Full, Pow2;
      if log2 == 31 {
        return 1;
      }
      var bigger := new HashMap<V>(log2 + 1, hash);
      MoveAll(bigger);
      data, log2, size, model := bigger.data, bigger.log2, bigger.size, bigger.model;
      return 0;
    }

    /** The loop: pair by pair into the empty table of twice the capacity. */
    method MoveAll(bigger: HashMap<V>)
      requires Valid() && bigger.Valid() && bigger != this && bigger.data != data && log2 < 31
      requires bigger.log2 == log2 + 1 && bigger.hash == hash && bigger.model == map[]
      requires forall j | 0 <= j < bigger.data.Length :: bigger.data[j] == Free
      modifies this, data, bigger, bigger.data
      ensures bigger.Valid() && bigger.log2 == old(log2) + 1 && bigger.hash == hash && bigger.model == old(model)
      ensures bigger.data == old(bigger.data)
      decreases 32 - bigger.log2, 3
    {
      hide Holds, Placed, Home, Splits, SubMap, Jammed, Moved, Lands, Full, Pow2;
      var n := data.Length;
      ghost var from: map<int, int> := map[];
      SplitsStart(model);
      MovedStart(bigger.data[..]);
      for i := 0 to n
        invariant Valid() && bigger.Valid() && bigger.data == old(bigger.data)
        invariant data == old(data) && log2 == old(log2) && bigger.log2 == log2 + 1 && bigger.hash == hash
        invariant forall j | 0 <= j < i :: data[j] == Free
        invariant Splits(old(model), model, bigger.model)
        invariant Moved(bigger.data[..], from, i)
      {
        ghost var next;
        var failed;
        failed, next := MoveTo(bigger, i, old(model), from);
        from := next;
        if failed != 0 {
          assert false;
        }
      }
      HoldsEmpty(data[..], model);
      SplitsEnd(old(model), bigger.model);
    }
  }

  /** The keys stored one after another, later values for a key replacing earlier ones. */
  function Stored<V>(keys: seq<Key>, values: seq<V>): map<Key, V>
    requires |keys| == |values|
  {
    if keys == [] then map[] else
      var n := |keys| - 1;
      Stored(keys[..n], values[..n])[keys[n] := values[n]]
  }

  lemma {:induction false} StoredKeys<V>(keys: seq<Key>, values: seq<V>, all: set<Key>)
    requires |keys| == |values| && forall k | k in keys :: k in all
    ensures Stored(keys, values).Keys <= all && |Stored(keys, values)| <= |keys|
    decreases |keys|
  {
    if keys != [] {
      var n := |keys| - 1;
      StoredKeys(keys[..n], values[..n], all);
      SizePut(Stored(keys[..n], values[..n]), keys[n], values[n]);
    }
  }

  ghost function KeysOf(keys: seq<Key>): set<Key> { set k | k in keys }

  lemma GathersMore(keys: set<Key>, all: set<Key>, key: Key, hash: Key -> Word)
    requires keys <= all
    ensures Gathered(keys, key, hash) ==> Gathered(all, key, hash)
  {
    hide NextTo;
    if Gathered(keys, key, hash) {
      var some :| Gathers(some, keys, key, hash);
      assert Gathers(some, all, key, hash);
    }
  }

  /** Keys of which no nine have hashes next to each other are all taken, however many there are. */
  method PutAll<V(!new)>(m: HashMap<V>, keys: seq<Key>, values: seq<V>)
    requires m.Valid() && m.model == map[] && |keys| == |values| <= 0x8000_0000
    requires forall k | k in keys :: k != [] && !Gathered(KeysOf(keys), k, m.hash)
    modifies m, m.data
    ensures m.Valid() && m.model == Stored(keys, values)
  {
    hide HashMap.Valid, HashMap.Refuses, Gathered, Jammed, Lands;
    ghost var all := KeysOf(keys);
    for i := 0 to |keys|
      invariant m.Valid() && (m.data == old(m.data) || fresh(m.data))
      invariant m.model == Stored(keys[..i], values[..i])
    {
      StoredKeys(keys[..i], values[..i], all);
      assert |m.model.Keys| == |m.model| <= i;
      assert keys[i] in keys && keys[i] != [] && !Gathered(all, keys[i], m.hash);
      ghost var was := m.model;
      GathersMore(was.Keys, all, keys[i], m.hash);
      var r, _ := m.Put(keys[i], values[i]);
      assert keys[..i + 1][..i] == keys[..i] && values[..i + 1][..i] == values[..i];
      assert r == 0;
    }
    assert keys[..|keys|] == keys && values[..|keys|] == values;
  }

  lemma SmallProduct(v: Word)
    requires 1 <= v <= 9
    ensures v * 2654435769 % 0x1_0000_0000 ==
      [0, 2654435769, 1013904242, 3668340011, 2027808484, 387276957, 3041712726, 1401181199, 4055616968, 2415085441][v]
  {
  }

  /** The hashes 1 to 9 lie far apart. */
  lemma SmallFarApart(v: Word, w: Word)
    requires 1 <= v <= 9 && 1 <= w <= 9 && NextTo(v, w)
    ensures v == w
  {
    SmallProduct(v);
    SmallProduct(w);
  }

  /** Nine keys of the hashes 1 to 9 are all taken, and found again. */
  method NineTaken<V(!new)>(m: HashMap<V>, keys: seq<Key>, values: seq<V>)
    requires m.Valid() && m.model == map[] && |keys| == |values| == 9
    requires forall i | 0 <= i < 9 :: keys[i] != [] && m.hash(keys[i]) == i + 1
    modifies m, m.data
    ensures m.Valid() && |m.model| == 9
    ensures forall i | 0 <= i < 9 :: keys[i] in m.model && m.model[keys[i]] == values[i]
  {
    hide HashMap.Valid, NextTo;
    forall k | k in keys ensures k != [] && !Gathered(KeysOf(keys), k, m.hash) { NineSparse(keys, m.hash, k); }
    PutAll(m, keys, values);
    StoredAll(keys, values);
  }

  lemma NineSparse(keys: seq<Key>, hash: Key -> Word, key: Key)
    requires |keys| == 9 && (forall i | 0 <= i < 9 :: keys[i] != [] && hash(keys[i]) == i + 1) && key in keys
    ensures key != [] && !Gathered(KeysOf(keys), key, hash)
  {
    hide NextTo;
    forall some: set<Key> ensures !Gathers(some, KeysOf(keys), key, hash) {
      if some <= KeysOf(keys) && (forall k | k in some :: NextTo(hash(k), hash(key))) {
        forall k | k in some ensures k == key { SmallFarApart(hash(k), hash(key)); }
        SubsetSize(some, {key});
      }
    }
  }

  lemma {:induction false} StoredAll<V>(keys: seq<Key>, values: seq<V>)
    requires |keys| == |values| && forall i, j | 0 <= i < j < |keys| :: keys[i] != keys[j]
    ensures |Stored(keys, values)| == |keys|
    ensures forall i | 0 <= i < |keys| :: keys[i] in Stored(keys, values) && Stored(keys, values)[keys[i]] == values[i]
    decreases |keys|
  {
    if keys != [] {
      var n := |keys| - 1;
      StoredAll(keys[..n], values[..n]);
      StoredKeys(keys[..n], values[..n], KeysOf(keys[..n]));
      SizePut(Stored(keys[..n], values[..n]), keys[n], values[n]);
    }
  }

  /** What the loop over the window knows after `i` slots: `free` is the lowest free one, or all ones. */
  ghost predicate Seen<V(!new)>(s: seq<Slot<V>>, h: nat, i: nat, free: nat, key: Key) {
    && h + i <= |s| && (forall j | h <= j < h + i :: !At(s, j, key))
    && (free != WORDS - 1 ==> h <= free < h + i && s[free] == Free)
    && forall j | h <= j < h + i && j < free :: s[j].Used?
  }

  lemma SeenStart<V(!new)>(s: seq<Slot<V>>, h: nat, key: Key)
    requires h <= |s|
    ensures Seen(s, h, 0, WORDS - 1, key)
  {
  }

  lemma SeenNext<V(!new)>(s: seq<Slot<V>>, h: nat, i: nat, free: nat, key: Key)
    requires Seen(s, h, i, free, key) && h + i < |s| < WORDS
    ensures s[h + i].Free? ==> Seen(s, h, i + 1, if free < h + i then free else h + i, key)
    ensures s[h + i].Used? && s[h + i].key != key ==> Seen(s, h, i + 1, free, key)
  {
  }

  lemma FoundLands<V(!new)>(s: seq<Slot<V>>, m: map<Key, V>, h: nat, i: nat, key: Key)
    requires i < WINDOW && h + i < |s| && At(s, h + i, key) && key in m
    ensures Lands(s, m, h, key, h + i) && !Full(s, h, key)
  {
  }

  lemma SeenAll<V(!new)>(s: seq<Slot<V>>, m: map<Key, V>, hash: Key -> Word, log2: nat, h: nat, free: nat, key: Key)
    requires 1 <= log2 <= 31 && Holds(s, m) && Placed(s, hash, log2) && h == Home(hash(key), log2)
    requires Seen(s, h, WINDOW, free, key) && |s| < WORDS
    ensures if free == WORDS - 1 then Full(s, h, key) else Lands(s, m, h, key, free) && !Full(s, h, key)
  {
    NotInWindow(s, m, hash, log2, key);
    hide Home, Holds, Placed;
    forall i | h <= i < h + WINDOW && free == WORDS - 1 ensures s[i].Used? && s[i].key != key {
      assert !At(s, i, key);
    }
  }

  lemma LandsIn<V(!new)>(s: seq<Slot<V>>, m: map<Key, V>, h: nat, key: Key, at: nat)
    requires Lands(s, m, h, key, at)
    ensures h <= at < h + WINDOW && at < |s| && if key in m then At(s, at, key) else s[at] == Free
  {
  }

  lemma NotFull<V(!new)>(s: seq<Slot<V>>, h: nat, key: Key, at: nat)
    requires h <= at < h + WINDOW && at < |s| && At(s, at, key)
    ensures !Full(s, h, key)
  {
  }

  lemma ValueKept<V(!new)>(m: map<Key, V>, key: Key, value: V)
    ensures m[key := value] == m ==> key in m
  {
  }

  lemma PlacedAt<V(!new)>(s: seq<Slot<V>>, hash: Key -> Word, log2: nat, i: nat)
    requires 1 <= log2 <= 31 && Placed(s, hash, log2) && i < |s| && s[i].Used?
    ensures Home(hash(s[i].key), log2) <= i < Home(hash(s[i].key), log2) + WINDOW
  {
  }

  lemma MovedStart<V(!new)>(s: seq<Slot<V>>)
    requires forall n | 0 <= n < |s| :: s[n] == Free
    ensures Moved(s, map[], 0)
  {
  }

  lemma MovedLess<V(!new)>(s: seq<Slot<V>>, from: map<int, int>, i: nat)
    requires Moved(s, from, i)
    ensures Moved(s, from, i + 1)
  {
  }

  lemma HasRoom<V(!new)>(s: seq<Slot<V>>, from: map<int, int>, i: nat, g: nat, h: nat, key: Key)
    requires Moved(s, from, i) && g <= i < g + WINDOW && 2 * g <= h <= 2 * g + 1 && h + WINDOW <= |s|
    ensures !Full(s, h, key)
  {
    if Full(s, h, key) { MeetsFew(s, from, i, g, h, h + WINDOW); }
  }

  lemma MovedNext<V(!new)>(s: seq<Slot<V>>, m: map<Key, V>, from: map<int, int>, i: nat, g: nat, h: nat, key: Key, v: V,
      at: nat)
    requires Moved(s, from, i) && g <= i && 2 * g <= h <= 2 * g + 1 && Lands(s, m, h, key, at) && key !in m
    ensures at < |s| && Moved(s[at := Used(key, v)], from[at := i], i + 1)
  {
    MeetsFew(s, from, i, g, h, at);
  }

  lemma HeldAt<V(!new)>(s: seq<Slot<V>>, m: map<Key, V>, i: nat)
    requires Holds(s, m) && i < |s| && s[i].Used?
    ensures s[i].key in m && m[s[i].key] == s[i].value
  {
  }

  ghost predicate SubMap<V(!new)>(m: map<Key, V>, n: map<Key, V>) { forall k | k in m :: k in n && m[k] == n[k] }

  /** Every pair of the first map is in exactly one of the two others. */
  ghost predicate Splits<V(!new)>(all: map<Key, V>, m: map<Key, V>, n: map<Key, V>) {
    SubMap(m, all) && SubMap(n, all) && (forall k | k in all :: k in m <==> k !in n)
  }

  lemma SplitsStart<V(!new)>(m: map<Key, V>)
    ensures Splits(m, m, map[])
  {
  }

  lemma SplitsMove<V(!new)>(all: map<Key, V>, m: map<Key, V>, n: map<Key, V>, k: Key)
    requires Splits(all, m, n) && k in m
    ensures Splits(all, m - {k}, n[k := m[k]]) && SubMap(m, all)
  {
  }

  lemma SplitsEnd<V(!new)>(all: map<Key, V>, n: map<Key, V>)
    ensures Splits(all, map[], n) ==> n == all
  {
    if Splits(all, map[], n) { assert forall k :: k in n <==> k in all; }
  }

  lemma SplitsRoom<V(!new)>(all: map<Key, V>, m: map<Key, V>, n: map<Key, V>, k: Key)
    requires Splits(all, m, n) && k in m
    ensures k !in n && |n| <= |all|
  {
    SubsetSize(n.Keys, all.Keys);
    assert |n| == |n.Keys| && |all| == |all.Keys|;
  }

  lemma SizePut<V>(m: map<Key, V>, k: Key, v: V)
    ensures |m[k := v]| == if k in m then |m| else |m| + 1
  {
    var n := m[k := v];
    assert |n| == |n.Keys| && |m| == |m.Keys| && n.Keys == m.Keys + {k};
  }

  lemma SplitsKeys<V(!new)>(all: map<Key, V>, m: map<Key, V>, n: map<Key, V>)
    requires Splits(all, m, n)
    ensures n.Keys <= all.Keys
  {
  }

  /** A lookup scans the whole window, so a key that it does not see is not in the map. */
  lemma NotInWindow<V(!new)>(s: seq<Slot<V>>, m: map<Key, V>, hash: Key -> Word, log2: nat, key: Key)
    requires 1 <= log2 <= 31 && Holds(s, m) && Placed(s, hash, log2)
    requires var h := Home(hash(key), log2); forall j | h <= j < h + WINDOW :: !At(s, j, key)
    ensures key !in m
  {
    assert forall i :: !At(s, i, key);
  }

  lemma PlacedPut<V(!new)>(s: seq<Slot<V>>, hash: Key -> Word, log2: nat, i: nat, slot: Slot<V>)
    requires 1 <= log2 <= 31 && Placed(s, hash, log2) && i < |s|
    requires slot.Used? ==> Home(hash(slot.key), log2) <= i < Home(hash(slot.key), log2) + WINDOW
    ensures Placed(s[i := slot], hash, log2)
  {
  }

  lemma SizeRemove<V>(m: map<Key, V>, k: Key)
    requires k in m
    ensures |m - {k}| == |m| - 1
  {
    assert m == (m - {k})[k := m[k]];
  }
}
