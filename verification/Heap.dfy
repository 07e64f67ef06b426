/**
 The kernel heap: blocks with a header each, linked both ways in address order. `Split` is the
 source's; it leaves one back link behind, so runs of calls are shown with that link repaired.
 */
module Heaps {
  import opened Links

  const HEADER := 16  // bytes
  const WORDS := 0x1_0000_0000

  type Addr = nat  // 0 is the null pointer

  datatype Header = Header(size: nat, free: bool, prev: Addr, next: Addr)

  function SizeOf(h: map<Addr, Header>, a: Addr): nat { if a in h then h[a].size else 0 }

  // ---------- chains ----------

  function EndOf(c: seq<Addr>, i: nat, limit: nat): nat { if i + 1 < |c| then c[i + 1] else limit }

  ghost predicate Block(h: map<Addr, Header>, c: seq<Addr>, i: nat, limit: nat)
    requires i < |c|
  {
    && c[i] in h && c[i] > 0 && h[c[i]].next == NextOf(c, i)
    && h[c[i]].prev == PrevOf(c, i) && c[i] + HEADER + h[c[i]].size == EndOf(c, i, limit)
  }

  /** The blocks follow one another without a gap from `base` to `limit`, and their links agree. */
  ghost predicate Chain(h: map<Addr, Header>, c: seq<Addr>, base: Addr, limit: nat) {
    c != [] && c[0] == base && forall i | 0 <= i < |c| :: Block(h, c, i, limit)
  }

  ghost predicate BothFree(h: map<Addr, Header>, a: Addr, b: Addr) {
    a in h && b in h && h[a].free && h[b].free
  }

  /** No two neighbours are free. */
  ghost predicate Quiet(h: map<Addr, Header>, c: seq<Addr>) {
    forall i | 0 <= i < |c| - 1 :: !BothFree(h, c[i], c[i + 1])
  }

  /** Blocks do not overlap: each ends before the next ones begin. */
  lemma {:induction false} Ordered(h: map<Addr, Header>, c: seq<Addr>, base: Addr, limit: nat, i: nat, j: nat)
    requires Chain(h, c, base, limit) && i < j < |c|
    ensures c[i] + HEADER + SizeOf(h, c[i]) <= c[j] && c[j] + HEADER + SizeOf(h, c[j]) <= limit
    decreases |c| - i
  {
    assert Block(h, c, i, limit);
    if i + 1 < j {
      Ordered(h, c, base, limit, i + 1, j);
      assert Block(h, c, i + 1, limit);
    } else {
      Ends(h, c, base, limit, j);
    }
  }

  lemma {:induction false} Ends(h: map<Addr, Header>, c: seq<Addr>, base: Addr, limit: nat, j: nat)
    requires Chain(h, c, base, limit) && j < |c|
    ensures c[j] + HEADER + SizeOf(h, c[j]) <= limit
    decreases |c| - j
  {
    assert Block(h, c, j, limit);
    if j + 1 < |c| { Ends(h, c, base, limit, j + 1); }
  }

  lemma InMemory(h: map<Addr, Header>, c: seq<Addr>, base: Addr, limit: nat)
    requires Chain(h, c, base, limit)
    ensures forall i | 0 <= i < |c| :: c[i] in h && c[i] > 0
  {
    forall i | 0 <= i < |c| ensures c[i] in h && c[i] > 0 {
      assert Block(h, c, i, limit);
    }
  }

  ghost predicate Distinct(c: seq<Addr>) { forall i, j | 0 <= i < j < |c| :: c[i] < c[j] }

  lemma ChainDistinct(h: map<Addr, Header>, c: seq<Addr>, base: Addr, limit: nat)
    requires Chain(h, c, base, limit)
    ensures Distinct(c)
  {
    forall i, j | 0 <= i < j < |c| ensures c[i] < c[j] {
      Ordered(h, c, base, limit, i, j);
    }
  }

  ghost function Sizes(h: map<Addr, Header>, c: seq<Addr>): nat {
    if c == [] then 0 else Sizes(h, c[..|c| - 1]) + HEADER + if c[|c| - 1] in h then h[c[|c| - 1]].size else 0
  }

  /** Sizes and headers add up to the heap. */
  lemma {:induction false} SizesAddUp(h: map<Addr, Header>, c: seq<Addr>, base: Addr, limit: nat, n: nat)
    requires Chain(h, c, base, limit) && n <= |c|
    ensures Sizes(h, c[..n]) == (if n < |c| then c[n] else limit) - base
    decreases n
  {
    if n > 0 {
      assert Block(h, c, n - 1, limit);
      assert c[..n][..n - 1] == c[..n - 1];
      SizesAddUp(h, c, base, limit, n - 1);
    }
  }

  // ---------- split and merge on headers ----------

  /** As the source does it: the block that used to follow keeps its old back link. */
  function SplitAt(h: map<Addr, Header>, e: Addr, size: nat): map<Addr, Header>
    requires e in h
  {
    var n := e + HEADER + size;
    h[e := h[e].(size := size, next := n)]
     [n := Header((h[e].size - size - HEADER) % WORDS, true, e, h[e].next)]
  }

  /** The missing store. */
  function Relink(h: map<Addr, Header>, e: Addr): map<Addr, Header>
    requires e in h
  {
    var n := h[e].next;
    if n in h && h[n].next in h && h[n].next != 0 then h[h[n].next := h[h[n].next].(prev := n)] else h
  }

  /** The block at `e` takes over the one behind it; the store through a null pointer is left out. */
  function MergeNext(h: map<Addr, Header>, e: Addr): map<Addr, Header>
    requires e in h && h[e].next in h
  {
    var n := h[e].next;
    var g := h[e := h[e].(size := h[e].size + h[n].size + HEADER, next := h[n].next)];
    if h[n].next in g && h[n].next != 0 then g[h[n].next := g[h[n].next].(prev := e)] else g
  }

  /** The block before `e`, by its back link, takes `e` over. */
  function MergePrev(h: map<Addr, Header>, e: Addr): map<Addr, Header>
    requires e in h && h[e].prev in h
  {
    var p := h[e].prev;
    var g := h[p := h[p].(size := h[p].size + h[e].size + HEADER, next := h[e].next)];
    if h[e].next in g && h[e].next != 0 then g[h[e].next := g[h[e].next].(prev := p)] else g
  }

  function SplitChain(c: seq<Addr>, k: nat, n: Addr): seq<Addr>
    requires k < |c|
  {
    c[..k + 1] + [n] + c[k + 1..]
  }

  function MergeChain(c: seq<Addr>, k: nat): seq<Addr>
    requires k + 1 < |c|
  {
    c[..k + 1] + c[k + 2..]
  }

  /** A split whose parts fit leaves a chain once the back link is repaired. */
  lemma SplitKeepsChain(h: map<Addr, Header>, c: seq<Addr>, base: Addr, limit: nat, k: nat, size: nat)
    requires Chain(h, c, base, limit) && k < |c| && limit < WORDS && size + HEADER <= SizeOf(h, c[k])
    ensures c[k] in h && Chain(Relink(SplitAt(h, c[k], size), c[k]), SplitChain(c, k, c[k] + HEADER + size), base,
      limit)
  {
    var e, n := c[k], c[k] + HEADER + size;
    ChainDistinct(h, c, base, limit);
    Ends(h, c, base, limit, k);
    assert Block(h, c, k, limit);
    var g := Relink(SplitAt(h, e, size), e);
    var d := SplitChain(c, k, n);
    InMemory(h, c, base, limit);
    assert (k + 1 < |c| ==> n < c[k + 1]) && c[k] < n;
    hide SplitAt, Relink, Block, Chain;
    forall i | 0 <= i < |d| ensures Block(g, d, i, limit) {
      SplitBlock(h, c, base, limit, k, size, i);
    }
    ChainIs(h, c, g, d, base, limit);
  }

  lemma ChainIs(h: map<Addr, Header>, c: seq<Addr>, g: map<Addr, Header>, d: seq<Addr>, base: Addr, limit: nat)
    requires Chain(h, c, base, limit) && d != [] && d[0] == c[0] && forall i | 0 <= i < |d| :: Block(g, d, i, limit)
    ensures Chain(g, d, base, limit)
  {
  }

  lemma SplitBlock(h: map<Addr, Header>, c: seq<Addr>, base: Addr, limit: nat, k: nat, size: nat, i: nat)
    requires Chain(h, c, base, limit) && Distinct(c) && k < |c| && i <= |c| && limit < WORDS
    requires (k + 1 < |c| ==> c[k + 1] in h && c[k] + HEADER + size < c[k + 1]) && c[k] in h && c[k] > 0
    requires size + HEADER <= SizeOf(h, c[k])
    requires c[k] + HEADER + SizeOf(h, c[k]) <= limit
    ensures Block(Relink(SplitAt(h, c[k], size), c[k]), SplitChain(c, k, c[k] + HEADER + size), i, limit)
  {
    hide SplitAt, Relink, SplitChain;
    var j, n := if i <= k then i else i - 1, c[k] + HEADER + size;
    assert Block(h, c, j, limit) && Block(h, c, k, limit);
    assert c[j] != n by { Between(c, k, j, n); }
    Apart(c, j, k);
    if k + 1 < |c| { Apart(c, j, k + 1); }
    SplitHeaders(h, c[k], size, c[j]);
    SplitPlaces(c, k, n, i);
    hide Distinct, Chain;
  }

  /** What a split with its repair leaves in the headers. */
  lemma SplitHeaders(h: map<Addr, Header>, e: Addr, size: nat, x: Addr)
    requires e in h && (h[e].next != 0 ==> h[e].next in h && e < h[e].next && h[e].next != e + HEADER + size)
    ensures var g, n := Relink(SplitAt(h, e, size), e), e + HEADER + size;
      && e in g && g[e] == h[e].(size := size, next := n)
      && n in g && g[n] == Header((h[e].size - size - HEADER) % WORDS, true, e, h[e].next)
      && (h[e].next != 0 ==> h[e].next in g && g[h[e].next] == h[h[e].next].(prev := n))
      && (x in h && x != e && x != n && (x != h[e].next || x == 0) ==> x in g && g[x] == h[x])
  {
  }

  lemma SplitPlaces(c: seq<Addr>, k: nat, n: Addr, i: nat)
    requires k < |c| && i <= |c|
    ensures var d := SplitChain(c, k, n);
      |d| == |c| + 1 && d[i] == (if i <= k then c[i] else if i == k + 1 then n else c[i - 1])
    ensures var d := SplitChain(c, k, n);
      NextOf(d, i) == (if i == k then n else if i < k then NextOf(c, i) else NextOf(c, i - 1))
    ensures var d := SplitChain(c, k, n);
      PrevOf(d, i) == (if i <= k then PrevOf(c, i) else if i == k + 1 then c[k] else if i == k + 2 then n
        else PrevOf(c, i - 1))
    ensures var d := SplitChain(c, k, n); forall limit ::
      EndOf(d, i, limit) == (if i == k then n else if i < k then EndOf(c, i, limit) else EndOf(c, i - 1, limit))
  {
  }

  lemma Between(c: seq<Addr>, k: nat, j: nat, n: nat)
    requires Distinct(c) && k < |c| && j < |c| && c[k] < n && (k + 1 < |c| ==> n < c[k + 1])
    ensures c[j] != n
  {
  }

  /** As written, a split leaves a chain exactly when nothing follows the block: otherwise the
      back link of the follower passes over the new block. */
  lemma SplitAsWritten(h: map<Addr, Header>, c: seq<Addr>, base: Addr, limit: nat, k: nat, size: nat)
    requires Chain(h, c, base, limit) && k < |c| && limit < WORDS && size + HEADER <= SizeOf(h, c[k])
    ensures c[k] in h && h[c[k]].next == NextOf(c, k)
    ensures Chain(SplitAt(h, c[k], size), SplitChain(c, k, c[k] + HEADER + size), base, limit) <==> h[c[k]].next == 0
  {
    SplitKeepsChain(h, c, base, limit, k, size);
    ChainDistinct(h, c, base, limit);
    Ends(h, c, base, limit, k);
    assert Block(h, c, k, limit);
    var e, n := c[k], c[k] + HEADER + size;
    var g, d := SplitAt(h, e, size), SplitChain(c, k, n);
    if k + 1 < |c| {
      assert Block(h, c, k + 1, limit);
      assert d[k + 2] == c[k + 1];
      assert !Block(g, d, k + 2, limit);
    } else {
      assert Relink(g, e) == g;
    }
  }

  /** What the stale link does: when the follower is merged back through it, the first part swallows
      the header of the second, which then is in no chain and may still be in use. */
  lemma StaleLinkSwallows(h: map<Addr, Header>, c: seq<Addr>, base: Addr, limit: nat, k: nat, size: nat)
    requires Chain(h, c, base, limit) && k + 1 < |c| && limit < WORDS && size + HEADER <= SizeOf(h, c[k])
    ensures c[k] in h && c[k + 1] in h && SplitAt(h, c[k], size)[c[k + 1]].prev == c[k]
    ensures var g, b, n := SplitAt(h, c[k], size), c[k + 1], c[k] + HEADER + size;
      var f := MergePrev(g, b);
      && n in f && f[c[k]].next != n && c[k] < n && n + HEADER + SizeOf(h, b) == c[k] + HEADER + f[c[k]].size
  {
    ChainDistinct(h, c, base, limit);
    Ends(h, c, base, limit, k);
    assert Block(h, c, k, limit) && Block(h, c, k + 1, limit);
    if k + 2 < |c| { assert Block(h, c, k + 2, limit) && c[k + 1] < c[k + 2]; }
  }

  /** With matching links the two directions of a merge are one operation. */
  lemma MergeEitherWay(h: map<Addr, Header>, c: seq<Addr>, base: Addr, limit: nat, k: nat)
    requires Chain(h, c, base, limit) && k + 1 < |c|
    ensures c[k] in h && h[c[k]].next == c[k + 1] && c[k + 1] in h && h[c[k + 1]].prev == c[k]
    ensures MergePrev(h, c[k + 1]) == MergeNext(h, c[k])
  {
    ChainDistinct(h, c, base, limit);
    assert Block(h, c, k, limit) && Block(h, c, k + 1, limit);
  }

  /** A block that cannot hold both parts is split into garbage: the second size wraps around. */
  lemma SplitFits(h: map<Addr, Header>, c: seq<Addr>, base: Addr, limit: nat, k: nat, size: nat)
    requires Chain(h, c, base, limit) && k < |c| && limit < WORDS && size <= SizeOf(h, c[k])
    ensures c[k] in h
    ensures Chain(Relink(SplitAt(h, c[k], size), c[k]), SplitChain(c, k, c[k] + HEADER + size), base, limit)
      <==> size + HEADER <= SizeOf(h, c[k])
  {
    assert Block(h, c, k, limit);
    Ends(h, c, base, limit, k);
    var e, n := c[k], c[k] + HEADER + size;
    if size + HEADER <= SizeOf(h, e) {
      SplitKeepsChain(h, c, base, limit, k, size);
    } else {
      var g, d := Relink(SplitAt(h, e, size), e), SplitChain(c, k, n);
      assert d[k + 1] == n;
      if k + 1 < |c| { Ends(h, c, base, limit, k + 1); }
      assert !Block(g, d, k + 1, limit);
    }
  }

  /** Growing in place takes the follower and gives back what is left; the guard of the original lets through
      requests that leave less than a header. */
  lemma GrowFits(h: map<Addr, Header>, c: seq<Addr>, base: Addr, limit: nat, k: nat, size: nat)
    requires Chain(h, c, base, limit) && k + 1 < |c| && limit < WORDS
    requires size <= SizeOf(h, c[k]) + SizeOf(h, c[k + 1]) + HEADER
    ensures c[k] in h && h[c[k]].next == c[k + 1] && c[k + 1] in h
    ensures var g, d := MergeNext(h, c[k]), MergeChain(c, k);
      Chain(Relink(SplitAt(g, c[k], size), c[k]), SplitChain(d, k, c[k] + HEADER + size), base, limit) <==>
        size <= SizeOf(h, c[k]) + SizeOf(h, c[k + 1])
  {
    hide Chain, Relink, SplitAt, SplitChain;
    MergeKeepsChain(h, c, base, limit, k);
    SplitFits(MergeNext(h, c[k]), MergeChain(c, k), base, limit, k, size);
  }

  /** A heap on which the block at 16 asks for 104 bytes: with its follower it has 112, the guard lets it through,
      and the header cut off, with a size near 2^32, lies on that of the block behind, which is in use. */
  lemma GrowsIntoNext()
    ensures var h := map[16 := Header(64, false, 0, 96), 96 := Header(32, true, 16, 144),
                         144 := Header(32, false, 96, 0)];
      var g := Relink(SplitAt(MergeNext(h, 16), 16, 104), 16);
      && Chain(h, [16, 96, 144], 16, 192) && Quiet(h, [16, 96, 144])
      && 104 < SizeOf(h, 16) + SizeOf(h, 96) + HEADER
      && 136 in g && g[136].free && g[136].size == WORDS - 8 && 136 < 144 < 136 + HEADER
      && !Chain(g, [16, 136, 144], 16, 192)
  {
    var h := map[16 := Header(64, false, 0, 96), 96 := Header(32, true, 16, 144), 144 := Header(32, false, 96, 0)];
    var c := [16, 96, 144];
    forall i | 0 <= i < |c| ensures Block(h, c, i, 192) {}
    GrowFits(h, c, 16, 192, 0, 104);
    assert MergeChain(c, 0) == [16, 144] && SplitChain([16, 144], 0, 136) == [16, 136, 144];
  }

  lemma MergeKeepsChain(h: map<Addr, Header>, c: seq<Addr>, base: Addr, limit: nat, k: nat)
    requires Chain(h, c, base, limit) && k + 1 < |c|
    ensures c[k] in h && h[c[k]].next == c[k + 1] && c[k + 1] in h && h[c[k + 1]].prev == c[k]
    ensures Chain(MergeNext(h, c[k]), MergeChain(c, k), base, limit)
  {
    ChainDistinct(h, c, base, limit);
    assert Block(h, c, k, limit) && Block(h, c, k + 1, limit);
    var g, d := MergeNext(h, c[k]), MergeChain(c, k);
    InMemory(h, c, base, limit);
    hide MergeNext, Block, Chain;
    forall i | 0 <= i < |d| ensures Block(g, d, i, limit) {
      MergeBlock(h, c, base, limit, k, i);
    }
    ChainIs(h, c, g, d, base, limit);
  }

  lemma MergeBlock(h: map<Addr, Header>, c: seq<Addr>, base: Addr, limit: nat, k: nat, i: nat)
    requires Chain(h, c, base, limit) && Distinct(c) && k + 1 < |c| && i < |c| - 1
    requires (k + 2 < |c| ==> c[k + 2] in h) && c[k] in h && h[c[k]].next in h && h[c[k]].next == c[k + 1]
    ensures Block(MergeNext(h, c[k]), MergeChain(c, k), i, limit)
  {
    var j := if i <= k then i else i + 1;
    assert Block(h, c, j, limit) && Block(h, c, k, limit) && Block(h, c, k + 1, limit);
    Apart(c, j, k);
    Apart(c, j, k + 1);
    if k + 2 < |c| {
      Apart(c, j, k + 2);
      Apart(c, k, k + 2);
    }
    MergeHeaders(h, c[k], c[j]);
    MergePlaces(c, k, i);
    hide Distinct, Chain, MergeNext, MergeChain;
  }

  lemma MergeHeaders(h: map<Addr, Header>, e: Addr, x: Addr)
    requires e in h && h[e].next in h
    requires var after := h[h[e].next].next; after != 0 ==> after in h && after != e
    ensures var g, n := MergeNext(h, e), h[h[e].next];
      && e in g && g[e] == h[e].(size := h[e].size + n.size + HEADER, next := n.next)
      && (n.next != 0 ==> n.next in g && g[n.next] == h[n.next].(prev := e))
      && (x in h && x != e && (x != n.next || x == 0) ==> x in g && g[x] == h[x])
  {
  }

  lemma MergePlaces(c: seq<Addr>, k: nat, i: nat)
    requires k + 1 < |c| && i + 1 < |c|
    ensures var d := MergeChain(c, k); |d| == |c| - 1 && d[i] == (if i <= k then c[i] else c[i + 1])
    ensures var d := MergeChain(c, k); NextOf(d, i) == (if i < k then NextOf(c, i) else NextOf(c, i + 1))
    ensures var d := MergeChain(c, k);
      PrevOf(d, i) == (if i <= k then PrevOf(c, i) else if i == k + 1 then c[k] else PrevOf(c, i + 1))
    ensures var d := MergeChain(c, k); forall limit ::
      EndOf(d, i, limit) == (if i < k then EndOf(c, i, limit) else EndOf(c, i + 1, limit))
  {
  }

  lemma Apart(c: seq<Addr>, i: nat, j: nat)
    requires Distinct(c) && i < |c| && j < |c|
    ensures c[i] == c[j] <==> i == j
  {
  }

  // ---------- which blocks are in use ----------

  ghost predicate InUse(h: map<Addr, Header>, c: seq<Addr>, a: Addr) { a in c && a in h && !h[a].free }

  /** The same blocks are in use, with the same sizes. */
  ghost predicate SameUse(h: map<Addr, Header>, c: seq<Addr>, g: map<Addr, Header>, d: seq<Addr>) {
    forall a :: (InUse(h, c, a) <==> InUse(g, d, a)) && (InUse(h, c, a) ==> SizeOf(h, a) == SizeOf(g, a))
  }

  /** Live payloads do not overlap each other or any header. */
  lemma PayloadsApart(h: map<Addr, Header>, c: seq<Addr>, base: Addr, limit: nat, a: Addr, b: Addr)
    requires Chain(h, c, base, limit) && InUse(h, c, a) && b in c && a != b
    ensures a + HEADER + SizeOf(h, a) <= b || b + HEADER + SizeOf(h, b) <= a
    ensures base <= a && a + HEADER + SizeOf(h, a) <= limit
  {
    var i :| 0 <= i < |c| && c[i] == a;
    var j :| 0 <= j < |c| && c[j] == b;
    if i < j { Ordered(h, c, base, limit, i, j); } else { Ordered(h, c, base, limit, j, i); }
    Ends(h, c, base, limit, i);
    ChainDistinct(h, c, base, limit);
  }

  /** At most the pairs around block `k` are free together. */
  ghost predicate QuietBut(h: map<Addr, Header>, c: seq<Addr>, k: int) {
    forall i | 0 <= i < |c| - 1 && i != k && i + 1 != k :: !BothFree(h, c[i], c[i + 1])
  }

  lemma MergeQuiet(h: map<Addr, Header>, c: seq<Addr>, base: Addr, limit: nat, k: nat, at: nat)
    requires Chain(h, c, base, limit) && k + 1 < |c| && (at == k || at == k + 1) && QuietBut(h, c, at)
    requires c[k] in h && h[c[k]].free && h[c[k]].next in h && h[c[k]].next == c[k + 1] && h[c[k + 1]].free
    ensures QuietBut(MergeNext(h, c[k]), MergeChain(c, k), k) && SameUse(h, c, MergeNext(h, c[k]), MergeChain(c, k))
  {
    ChainDistinct(h, c, base, limit);
    var g, d := MergeNext(h, c[k]), MergeChain(c, k);
    MergeFrees(h, c, base, limit, k);
    forall i | 0 <= i < |d| - 1 && i != k && i + 1 != k ensures !BothFree(g, d[i], d[i + 1]) {
      var j := if i <= k then i else i + 1;
      assert d[i] == c[j] && d[i + 1] == c[j + 1];
    }
  }

  /** A merge changes no `free` flag, and drops one free block. */
  lemma MergeFrees(h: map<Addr, Header>, c: seq<Addr>, base: Addr, limit: nat, k: nat)
    requires Chain(h, c, base, limit) && k + 1 < |c| && Distinct(c)
    requires c[k] in h && h[c[k]].free && h[c[k]].next in h && h[c[k]].next == c[k + 1] && h[c[k + 1]].free
    ensures var g := MergeNext(h, c[k]);
      (forall a | a in h :: a in g && g[a].free == h[a].free) && (forall a | a in g :: a in h)
    ensures SameUse(h, c, MergeNext(h, c[k]), MergeChain(c, k))
  {
    var g, d := MergeNext(h, c[k]), MergeChain(c, k);
    forall a ensures (InUse(h, c, a) <==> InUse(g, d, a)) && (InUse(h, c, a) ==> SizeOf(h, a) == SizeOf(g, a)) {
      if a in c && a != c[k + 1] {
        var i :| 0 <= i < |c| && c[i] == a;
        assert d[if i <= k then i else i - 1] == a;
      }
    }
  }

  /** A split changes no `free` flag and no size but that of the block itself. */
  lemma SplitFrees(h: map<Addr, Header>, c: seq<Addr>, base: Addr, limit: nat, k: nat, size: nat)
    requires Chain(h, c, base, limit) && k < |c| && limit < WORDS && size + HEADER <= SizeOf(h, c[k])
    ensures c[k] in h && var g := Relink(SplitAt(h, c[k], size), c[k]); c[k] in g && g[c[k]].size == size
    ensures c[k] in h && var g := Relink(SplitAt(h, c[k], size), c[k]);
      forall i | 0 <= i < |c| :: c[i] != c[k] + HEADER + size && c[i] in h && c[i] in g && g[c[i]].free == h[c[i]].free
    ensures c[k] in h && var g := Relink(SplitAt(h, c[k], size), c[k]);
      forall i | 0 <= i < |c| && i != k :: SizeOf(g, c[i]) == SizeOf(h, c[i])
    ensures c[k] in h && var g := Relink(SplitAt(h, c[k], size), c[k]); var n := c[k] + HEADER + size;
      n in g && g[n].free
  {
    ChainDistinct(h, c, base, limit);
    InMemory(h, c, base, limit);
    Ends(h, c, base, limit, k);
    assert Block(h, c, k, limit);
  }

  lemma SplitUse(h: map<Addr, Header>, c: seq<Addr>, base: Addr, limit: nat, k: nat, size: nat)
    requires Chain(h, c, base, limit) && Quiet(h, c) && k < |c| && limit < WORDS && size + HEADER <= SizeOf(h, c[k])
    ensures c[k] in h && var g := Relink(SplitAt(h, c[k], size), c[k]);
      c[k] in g && g[c[k]].size == size && g[c[k]].free == h[c[k]].free
    ensures h[c[k]].free ==> SameUse(h, c, Relink(SplitAt(h, c[k], size), c[k]), SplitChain(c, k, c[k] + HEADER + size))
    ensures h[c[k]].free ==> var g := Relink(SplitAt(h, c[k], size), c[k]);
      Quiet(g[c[k] := g[c[k]].(free := false)], SplitChain(c, k, c[k] + HEADER + size))
  {
    SplitFrees(h, c, base, limit, k, size);
    var e, n := c[k], c[k] + HEADER + size;
    var g, d := Relink(SplitAt(h, e, size), e), SplitChain(c, k, n);
    ChainDistinct(h, c, base, limit);
    hide Chain, Relink, SplitAt;
    if h[e].free {
      SplitSameUse(h, c, g, k, n);
      SplitQuiet(h, c, g, k, n);
    }
  }

  lemma SplitSameUse(h: map<Addr, Header>, c: seq<Addr>, g: map<Addr, Header>, k: nat, n: Addr)
    requires k < |c| && n in g && g[n].free && forall i | 0 <= i < |c| && i != k :: SizeOf(g, c[i]) == SizeOf(h, c[i])
    requires forall i | 0 <= i < |c| :: c[i] != n && c[i] in h && c[i] in g && g[c[i]].free == h[c[i]].free
    requires h[c[k]].free
    ensures SameUse(h, c, g, SplitChain(c, k, n))
  {
    var d := SplitChain(c, k, n);
    forall a ensures (InUse(h, c, a) <==> InUse(g, d, a)) && (InUse(h, c, a) ==> SizeOf(h, a) == SizeOf(g, a)) {
      if a in c {
        var i :| 0 <= i < |c| && c[i] == a;
        assert d[if i <= k then i else i + 1] == a;
      }
    }
  }

  lemma SplitQuiet(h: map<Addr, Header>, c: seq<Addr>, g: map<Addr, Header>, k: nat, n: Addr)
    requires forall i | 0 <= i < |c| :: c[i] != n && c[i] in h && c[i] in g && g[c[i]].free == h[c[i]].free
    requires k < |c| && Distinct(c) && Quiet(h, c) && n in g && h[c[k]].free
    ensures Quiet(g[c[k] := g[c[k]].(free := false)], SplitChain(c, k, n))
  {
    var d := SplitChain(c, k, n);
    var u := g[c[k] := g[c[k]].(free := false)];
    forall i | 0 <= i < |d| - 1 ensures !BothFree(u, d[i], d[i + 1]) {
      if i > k + 1 {
        assert d[i] == c[i - 1] && d[i + 1] == c[i];
        assert !BothFree(h, c[i - 1], c[i]);
      } else if i + 1 < k {
        assert !BothFree(h, c[i], c[i + 1]);
      } else if i == k + 1 {
        assert d[i + 1] == c[k + 1] && !BothFree(h, c[k], c[k + 1]);
      }
    }
  }

  /** What can be handed out: free and large enough. */
  predicate Suits(h: map<Addr, Header>, a: Addr, size: nat) { a in h && h[a].free && h[a].size >= size }

  /** The size of the block handed out from a free one: cut to the request if more than twice that is there. */
  function Granted(had: nat, size: nat): nat { if had > (size + HEADER) * 2 then size else had }

  class Heap {
    var headers: map<Addr, Header>
    const first: Addr
    const limit: nat
    ghost var chain: seq<Addr>

    /** A heap below 2^31 keeps the test for splitting from wrapping around. */
    ghost predicate Valid()
      reads this
    {
      limit <= 0x8000_0000 && Chain(headers, chain, first, limit) && Quiet(headers, chain)
    }

    constructor (buffer: Addr, size: nat)
      requires buffer > 0 && HEADER <= size && buffer + size <= 0x8000_0000
      ensures Valid() && first == buffer && limit == buffer + size && forall a :: !InUse(headers, chain, a)
    {
      first := buffer;
      limit := buffer + size;
      headers := map[buffer := Header(size - HEADER, true, 0, 0)];
      chain := [buffer];
    }

    /** The split of the source, then the back link it leaves out. */
    method Split(entry: Addr, size: nat, ghost k: nat)
      requires limit < WORDS && Chain(headers, chain, first, limit) && k < |chain| && entry == chain[k]
      requires size + HEADER <= SizeOf(headers, entry)
      modifies this
      ensures entry in old(headers) && headers == Relink(SplitAt(old(headers), entry, size), entry)
      ensures chain == SplitChain(old(chain), k, entry + HEADER + size) && Chain(headers, chain, first, limit)
    {
      hide Chain, Quiet;
      SplitKeepsChain(headers, chain, first, limit, k, size);
      var totalSize := headers[entry].size;
      var size2 := (totalSize - size - HEADER) % WORDS;
      var oldNext := headers[entry].next;
      headers := headers[entry := headers[entry].(size := size, next := entry + HEADER + size)];
      var next := headers[entry].next;
      headers := headers[next := Header(size2, true, entry, oldNext)];
      if oldNext in headers && oldNext != 0 {
        headers := headers[oldNext := headers[oldNext].(prev := next)];
      }
      chain := SplitChain(chain, k, next);
    }

    /** First fit. */
    method Malloc(size: nat) returns (p: Addr)
      requires Valid() && size < WORDS
      modifies this
      ensures Valid()
      ensures p == 0 ==> headers == old(headers) && chain == old(chain)
      ensures p == 0 <==> size == 0 || forall i | 0 <= i < |old(chain)| :: !Suits(old(headers), old(chain)[i], size)
      ensures p != 0 ==> p >= HEADER && InUse(headers, chain, p - HEADER)
      ensures p != 0 ==> SizeOf(headers, p - HEADER) == Granted(old(SizeOf(headers, p - HEADER)), size) >= size
      ensures p != 0 ==> var had := old(SizeOf(headers, p - HEADER));
        SizeOf(headers, p - 16) == if had > 2 * size + 32 then size else had
      ensures p != 0 ==> FirstFit(old(headers), old(chain), p - HEADER, size)
      ensures p != 0 ==> forall a | a != p - HEADER :: InUse(headers, chain, a) <==> old(InUse(headers, chain, a))
      ensures p != 0 ==> forall a | old(InUse(headers, chain, a)) :: SizeOf(headers, a) == old(SizeOf(headers, a))
    {
      InMemory(headers, chain, first, limit);
      var current := first;
      ghost var k := 0;
      if size == 0 {
        return 0;
      }
      while current != 0
        invariant headers == old(headers) && chain == old(chain) && k <= |chain|
        invariant current == (if k < |chain| then chain[k] else 0)
        invariant forall i | 0 <= i < k :: !Suits(headers, chain[i], size)
        decreases |chain| - k
      {
        assert Block(headers, chain, k, limit);
        if !headers[current].free || headers[current].size < size {
          current := headers[current].next;
          k := k + 1;
        } else {
          TakeBlock(current, size, k);
          return current + HEADER;
        }
      }
      return 0;
    }

    /** Takes a block, splitting it when more than twice the request would be left. */
    method TakeBlock(current: Addr, size: nat, ghost k: nat)
      requires Valid() && k < |chain| && chain[k] == current && Suits(headers, current, size) && size > 0
      modifies this
      ensures Valid() && InUse(headers, chain, current)
      ensures SizeOf(headers, current) == Granted(old(SizeOf(headers, current)), size) >= size
      ensures forall a | a != current :: InUse(headers, chain, a) <==> old(InUse(headers, chain, a))
      ensures forall a | old(InUse(headers, chain, a)) :: SizeOf(headers, a) == old(SizeOf(headers, a))
    {
      ghost var h, c := headers, chain;
      Ends(h, c, first, limit, k);
      InMemory(h, c, first, limit);
      assert current in chain && (size + HEADER) * 2 < WORDS;
      if headers[current].size > (size + HEADER) * 2 % WORDS {
        SplitUse(h, c, first, limit, k, size);
        Split(current, size, k);
        assert chain[k] == current;
      }
      hide Chain, Quiet;
      FlagKeepsChain(headers, chain, first, limit, k, false);
      headers := headers[current := headers[current].(free := false)];
    }

    /** The block takes over its follower, or its predecessor takes over the block. */
    method Merge(entry: Addr, direction: char, ghost k: nat) returns (e: Addr)
      requires Chain(headers, chain, first, limit) && k < |chain| && entry == chain[k]
      requires if direction == 'p' then k > 0 else direction == 'n' && k + 1 < |chain|
      modifies this
      ensures var at := if direction == 'p' then k - 1 else k;
        && e == old(chain)[at] && e in old(headers) && old(headers)[e].next in old(headers)
        && headers == MergeNext(old(headers), e) && chain == MergeChain(old(chain), at)
    {
      LinksOf(headers, chain, first, limit, k);
      hide Chain, Quiet;
      if direction == 'p' {
        var entry2 := headers[entry].prev;
        headers := headers[entry2 := headers[entry2].(size := headers[entry2].size + headers[entry].size + HEADER,
          next := headers[entry].next)];
        var after := headers[entry2].next;
        if after in headers && after != 0 {
          headers := headers[after := headers[after].(prev := entry2)];
        }
        chain := MergeChain(chain, k - 1);
        return entry2;
      } else {
        var entry2 := headers[entry].next;
        headers := headers[entry := headers[entry].(size := headers[entry].size + headers[entry2].size + HEADER,
          next := headers[entry2].next)];
        var after := headers[entry].next;
        if after in headers && after != 0 {
          headers := headers[after := headers[after].(prev := entry)];
        }
        chain := MergeChain(chain, k);
        return entry;
      }
    }

    /** Frees a block and merges it with its free neighbours. */
    method Free(ptr: Addr)
      requires Valid() && (ptr != 0 ==> ptr >= HEADER && InUse(headers, chain, ptr - HEADER))
      modifies this
      ensures Valid()
      ensures forall a :: InUse(headers, chain, a) <==> old(InUse(headers, chain, a)) && (ptr == 0 || a != ptr - HEADER)
      ensures forall a | InUse(headers, chain, a) :: SizeOf(headers, a) == old(SizeOf(headers, a))
    {
      if ptr == 0 {
        return;
      }
      var entry := ptr - HEADER;
      ghost var k :| 0 <= k < |chain| && chain[k] == entry;
      FlagKeepsChain(headers, chain, first, limit, k, true);
      headers := headers[entry := headers[entry].(free := true)];
      ghost var h, c := headers, chain;
      hide Chain, Quiet, QuietBut, MergeNext, MergeChain;
      entry, k := MergeBack(entry, k);
      ghost var g, d := headers, chain;
      k := MergeFront(entry, k);
      SameUseTrans(h, c, g, d, headers, chain);
    }

    /** Merges a free block into free blocks before it. */
    method MergeBack(entry0: Addr, ghost k0: nat) returns (entry: Addr, ghost k: nat)
      requires Freed(k0) && chain[k0] == entry0
      modifies this
      ensures Freed(k) && chain[k] == entry && (k > 0 ==> !BothFree(headers, chain[k - 1], chain[k]))
      ensures SameUse(old(headers), old(chain), headers, chain)
    {
      hide Chain, QuietBut, SameUse, MergeNext, MergeChain;
      entry, k := entry0, k0;
      SameUseSelf(headers, chain);
      LinksOf(headers, chain, first, limit, k);
      while headers[entry].prev != 0 && headers[headers[entry].prev].free
        invariant Freed(k) && chain[k] == entry && SameUse(old(headers), old(chain), headers, chain)
        invariant headers[entry].prev == PrevOf(chain, k) && (headers[entry].prev != 0 <==> k > 0)
        invariant headers[entry].prev != 0 ==> headers[entry].prev in headers
        decreases k
      {
        MergeStep(headers, chain, first, limit, k - 1, k);
        MergeAt(chain, k - 1);
        SameUseTrans(old(headers), old(chain), headers, chain, MergeNext(headers, chain[k - 1]),
          MergeChain(chain, k - 1));
        entry := Merge(entry, 'p', k);
        k := k - 1;
        LinksOf(headers, chain, first, limit, k);
      }
    }

    /** Merges free blocks behind a free block into it. */
    method MergeFront(entry0: Addr, ghost k0: nat) returns (ghost k: nat)
      requires Freed(k0) && chain[k0] == entry0 && (k0 > 0 ==> !BothFree(headers, chain[k0 - 1], chain[k0]))
      modifies this
      ensures Chain(headers, chain, first, limit) && Quiet(headers, chain)
      ensures SameUse(old(headers), old(chain), headers, chain)
    {
      hide Chain, QuietBut, SameUse, MergeNext, MergeChain, Quiet;
      var entry := entry0;
      k := k0;
      SameUseSelf(headers, chain);
      LinksOf(headers, chain, first, limit, k);
      while headers[entry].next != 0 && headers[headers[entry].next].free
        invariant Freed(k) && chain[k] == entry && SameUse(old(headers), old(chain), headers, chain)
        invariant k > 0 ==> !BothFree(headers, chain[k - 1], chain[k])
        invariant headers[entry].next == NextOf(chain, k) && (headers[entry].next != 0 <==> k + 1 < |chain|)
        invariant headers[entry].next != 0 ==> headers[entry].next in headers
        decreases |chain|
      {
        MergeStep(headers, chain, first, limit, k, k);
        MergeAt(chain, k);
        SameUseTrans(old(headers), old(chain), headers, chain, MergeNext(headers, chain[k]), MergeChain(chain, k));
        if k > 0 { LinksOf(headers, chain, first, limit, k - 1); }
        entry := Merge(entry, 'n', k);
        LinksOf(headers, chain, first, limit, k);
      }
      QuietAgain(headers, chain, k);
    }

    /** The branches that move data into the block before: they are not part of this model. */
    ghost predicate MovesBack(entry: Addr, size: nat)
      reads this
      requires entry in headers
    {
      var e := headers[entry];
      var after :=
        if e.next in headers && e.next != 0 && headers[e.next].free then headers[e.next].size + HEADER else 0;
      && e.size < size && e.prev in headers && e.prev != 0 && headers[e.prev].free
      && size < e.size + after + headers[e.prev].size + HEADER
    }

    /** Growing into the next block, with at least a header to spare. */
    ghost predicate Cramped(entry: Addr, size: nat)
      reads this
      requires entry in headers
    {
      var e := headers[entry];
      && e.size < size && e.next in headers && e.next != 0 && headers[e.next].free
      && size < e.size + headers[e.next].size + HEADER < size + HEADER
    }

    /** The block behind is free and, with its header, more than enough. */
    ghost predicate GrowsHere(entry: Addr, size: nat)
      reads this
      requires entry in headers
    {
      var e := headers[entry];
      e.next in headers && e.next != 0 && headers[e.next].free && size < e.size + headers[e.next].size + 16
    }

    /** Shrinks or grows a block where it is, or moves it. */
    method Realloc(ptr: Addr, size: nat) returns (p: Addr)
      requires Valid() && ptr >= HEADER && InUse(headers, chain, ptr - HEADER) && size < 0x8000_0000
      requires !MovesBack(ptr - HEADER, size) && !Cramped(ptr - HEADER, size)
      modifies this
      ensures Valid()
      ensures p == 0 ==> headers == old(headers) && chain == old(chain)
      ensures p == 0 ==> forall i | 0 <= i < |chain| :: !Suits(headers, chain[i], size)
      ensures size <= old(SizeOf(headers, ptr - HEADER)) ==> p == ptr
      ensures p != 0 ==> p >= HEADER && InUse(headers, chain, p - HEADER) && size <= SizeOf(headers, p - HEADER)
      ensures p != 0 && p != ptr ==> !old(InUse(headers, chain, p - HEADER))
      ensures p == ptr <==> size <= old(SizeOf(headers, ptr - 16)) || old(GrowsHere(ptr - 16, size))
      ensures p == ptr ==> var had := old(SizeOf(headers, ptr - 16));
        SizeOf(headers, ptr - 16) == if size <= had < size + 32 then had else size
      ensures p != 0 && p != ptr ==> var had := old(SizeOf(headers, p - 16));
        && FirstFit(old(headers), old(chain), p - 16, size)
        && SizeOf(headers, p - 16) == if had > 2 * size + 32 then size else had
      ensures p != 0 && p != ptr ==> old(SizeOf(headers, ptr - HEADER)) <= SizeOf(headers, p - HEADER)
      ensures forall a | a != ptr - HEADER && a != p - HEADER ::
        InUse(headers, chain, a) <==> old(InUse(headers, chain, a))
      ensures p != 0 && p != ptr ==> !InUse(headers, chain, ptr - HEADER)
      ensures forall a | a != ptr - HEADER && old(InUse(headers, chain, a)) ::
        SizeOf(headers, a) == old(SizeOf(headers, a))
    {
      var entry := ptr - HEADER;
      ghost var k :| 0 <= k < |chain| && chain[k] == entry;
      LinksOf(headers, chain, first, limit, k);
      if size <= headers[entry].size - 2 * HEADER {
        Shrink(entry, size, k);
        return ptr;
      } else if size <= headers[entry].size {
        return ptr;
      }
      var next := headers[entry].next;
      if next != 0 && headers[next].free && size < headers[entry].size + headers[next].size + HEADER {
        Grow(entry, size, k);
        return ptr;
      }
      ghost var had := headers[entry].size;
      p := Malloc(size);
      if p == 0 {
        return;
      }
      Free(ptr);
    }

    /** Splits a block in use; what is cut off is merged with a free follower. */
    method Shrink(entry: Addr, size: nat, ghost k: nat)
      requires Valid() && k < |chain| && entry == chain[k] && InUse(headers, chain, entry) &&
        size + 2 * HEADER <= SizeOf(headers, entry)
      modifies this
      ensures Valid() && SizeOf(headers, entry) == size
      ensures SameUseBut(old(headers), old(chain), headers, chain, entry)
    {
      ghost var h, c := headers, chain;
      QuietPair(h, c, k + 1);
      hide Chain, Quiet, QuietBut, SameUse, SameUseBut, MergeNext, InUse;
      CutTail(entry, size, k);
      LinksOf(headers, chain, first, limit, k);
      LinksOf(headers, chain, first, limit, k + 1);
      var next := headers[entry].next;
      if next != 0 && headers[next].next != 0 && headers[next].free && headers[headers[next].next].free {
        CutTailJoins(entry, k);
      } else {
        QuietAgain(headers, chain, k + 1);
      }
    }

    /** Frees the end of a block in use. */
    method CutTail(entry: Addr, size: nat, ghost k: nat)
      requires Valid() && k < |chain| && entry == chain[k] && InUse(headers, chain, entry) &&
        size + HEADER <= SizeOf(headers, entry)
      modifies this
      ensures |chain| == old(|chain|) + 1 && chain[k] == entry &&
        (k + 2 < |chain| ==> chain[k + 2] == old(chain)[k + 1])
      ensures Chain(headers, chain, first, limit) && QuietBut(headers, chain, k + 1) && SizeOf(headers, entry) == size
      ensures SameUseBut(old(headers), old(chain), headers, chain, entry) && InUse(headers, chain, entry)
      ensures !BothFree(headers, entry, chain[k + 1]) && chain[k + 1] in headers && headers[chain[k + 1]].free
      ensures k + 2 < |chain| ==> (BothFree(headers, chain[k + 1], chain[k + 2]) <==>
        old(k + 1 < |chain| && chain[k + 1] in headers && headers[chain[k + 1]].free))
    {
      ghost var h, c := headers, chain;
      InMemory(h, c, first, limit);
      SplitUsed(h, c, first, limit, k, size);
      SplitAround(c, k, entry + HEADER + size);
      assert InUse(h, c, entry);
      hide Chain, Quiet, QuietBut, Relink, SplitAt;
      Split(entry, size, k);
      assert k + 1 < |c| ==> c[k + 1] in c;
    }

    /** What was cut off and the free block behind it become one. */
    method CutTailJoins(entry: Addr, ghost k: nat)
      requires k + 2 < |chain| && chain[k] == entry && entry in headers && headers[entry].next == chain[k + 1]
      requires Chain(headers, chain, first, limit) && QuietBut(headers, chain, k + 1)
      requires BothFree(headers, chain[k + 1], chain[k + 2]) && !BothFree(headers, chain[k], chain[k + 1])
      requires k + 3 < |chain| ==> !BothFree(headers, chain[k + 2], chain[k + 3])
      modifies this
      ensures Chain(headers, chain, first, limit) && Quiet(headers, chain)
      ensures SameUse(old(headers), old(chain), headers, chain)
    {
      LinksOf(headers, chain, first, limit, k);
      MergeStep(headers, chain, first, limit, k + 1, k + 1);
      MergeAround(chain, k + 1);
      hide Chain, Quiet, QuietBut, MergeNext, SameUse;
      InMemory(headers, chain, first, limit);
      var e := Merge(headers[entry].next, 'n', k + 1);
      QuietAgain(headers, chain, k + 1);
    }

    /** Takes the free block behind and gives the rest of it back. */
    method Grow(entry: Addr, size: nat, ghost k: nat)
      requires Valid() && k + 1 < |chain| && entry == chain[k] && InUse(headers, chain, entry)
      requires chain[k + 1] in headers && headers[chain[k + 1]].free
      requires size + HEADER <= SizeOf(headers, entry) + SizeOf(headers, chain[k + 1]) + HEADER
      modifies this
      ensures Valid() && SizeOf(headers, entry) == size
      ensures SameUseBut(old(headers), old(chain), headers, chain, entry)
    {
      ghost var h, c := headers, chain;
      InMemory(h, c, first, limit);
      MergeKeepsChain(h, c, first, limit, k);
      MergeUsed(h, c, first, limit, k);
      QuietPair(h, c, k + 1);
      MergeAround(c, k);
      assert k + 2 < |c| ==> c[k + 2] in h;
      hide Chain, Quiet, QuietBut, SameUse, SameUseBut, MergeNext;
      var e := Merge(entry, 'n', k);
      ghost var g, d := headers, chain;
      SameUseButThen(h, c, g, d, g, d, entry);
      CutTail(e, size, k);
      QuietAgain(headers, chain, k + 1);
      SameUseButThen(h, c, g, d, headers, chain, entry);
    }

    ghost predicate Freed(k: nat)
      reads this
    {
      && k < |chain| && Chain(headers, chain, first, limit) && QuietBut(headers, chain, k)
      && chain[k] in headers && headers[chain[k]].free
    }
  }

  /** The same blocks are in use, and all but `e` have kept their sizes. */
  ghost predicate SameUseBut(h: map<Addr, Header>, c: seq<Addr>, g: map<Addr, Header>, d: seq<Addr>, e: Addr) {
    forall a :: (InUse(h, c, a) <==> InUse(g, d, a)) && (InUse(h, c, a) && a != e ==> SizeOf(h, a) == SizeOf(g, a))
  }

  lemma QuietPair(h: map<Addr, Header>, c: seq<Addr>, i: nat)
    requires Quiet(h, c)
    ensures i + 1 < |c| ==> !BothFree(h, c[i], c[i + 1])
  {
  }

  /** Splitting a block in use frees its end. */
  lemma SplitUsed(h: map<Addr, Header>, c: seq<Addr>, base: Addr, limit: nat, k: nat, size: nat)
    requires Chain(h, c, base, limit) && Quiet(h, c) && k < |c| && limit < WORDS && size + HEADER <= SizeOf(h, c[k])
    requires c[k] in h && !h[c[k]].free
    ensures var g, d := Relink(SplitAt(h, c[k], size), c[k]), SplitChain(c, k, c[k] + HEADER + size);
      && SameUseBut(h, c, g, d, c[k]) && SizeOf(g, c[k]) == size && QuietBut(g, d, k + 1) &&
        !BothFree(g, d[k], d[k + 1])
      && d[k + 1] in g && g[d[k + 1]].free
      && (forall a | a in c :: a in g && a in h && g[a].free == h[a].free)
  {
    SplitFrees(h, c, base, limit, k, size);
    ChainDistinct(h, c, base, limit);
    var e, n := c[k], c[k] + HEADER + size;
    var g, d := Relink(SplitAt(h, e, size), e), SplitChain(c, k, n);
    hide Chain, Relink, SplitAt;
    SplitUsedQuiet(h, c, g, k, n);
    SplitUsedUse(h, c, g, k, n);
  }

  lemma SplitUsedQuiet(h: map<Addr, Header>, c: seq<Addr>, g: map<Addr, Header>, k: nat, n: Addr)
    requires forall i | 0 <= i < |c| :: c[i] != n && c[i] in h && c[i] in g && g[c[i]].free == h[c[i]].free
    requires k < |c| && Quiet(h, c) && !h[c[k]].free
    ensures var d := SplitChain(c, k, n); QuietBut(g, d, k + 1) && !BothFree(g, d[k], d[k + 1])
  {
    var d := SplitChain(c, k, n);
    forall i | 0 <= i < |d| - 1 && i != k + 1 && i + 1 != k + 1 ensures !BothFree(g, d[i], d[i + 1]) {
      var j := if i <= k then i else i - 1;
      assert d[i] == c[j] && d[i + 1] == c[j + 1] && !BothFree(h, c[j], c[j + 1]);
    }
  }

  lemma SplitUsedUse(h: map<Addr, Header>, c: seq<Addr>, g: map<Addr, Header>, k: nat, n: Addr)
    requires forall i | 0 <= i < |c| :: c[i] != n && c[i] in h && c[i] in g && g[c[i]].free == h[c[i]].free
    requires k < |c| && n in g && g[n].free && forall i | 0 <= i < |c| && i != k :: SizeOf(g, c[i]) == SizeOf(h, c[i])
    ensures SameUseBut(h, c, g, SplitChain(c, k, n), c[k])
  {
    var d := SplitChain(c, k, n);
    forall a ensures (InUse(h, c, a) <==> InUse(g, d, a)) &&
      (InUse(h, c, a) && a != c[k] ==> SizeOf(h, a) == SizeOf(g, a)) {
      if a in c {
        var i :| 0 <= i < |c| && c[i] == a;
        assert d[if i <= k then i else i + 1] == a;
      }
    }
  }

  /** A block in use takes over a free one. */
  lemma MergeUsed(h: map<Addr, Header>, c: seq<Addr>, base: Addr, limit: nat, k: nat)
    requires Chain(h, c, base, limit) && Quiet(h, c) && k + 1 < |c|
    requires c[k] in h && !h[c[k]].free && c[k + 1] in h && h[c[k + 1]].free && h[c[k]].next == c[k + 1]
    requires forall a | a in c :: a in h
    ensures var g, d := MergeNext(h, c[k]), MergeChain(c, k);
      && SameUseBut(h, c, g, d, c[k]) && SizeOf(g, c[k]) == SizeOf(h, c[k]) + SizeOf(h, c[k + 1]) + HEADER &&
        Quiet(g, d)
      && c[k] in g && !g[c[k]].free && (forall a | a in h :: a in g && g[a].free == h[a].free)
  {
    ChainDistinct(h, c, base, limit);
    assert Block(h, c, k + 1, limit);
    var g := MergeNext(h, c[k]);
    assert forall a | a in h :: a in g && g[a].free == h[a].free;
    assert forall a | a in h && a != c[k] :: SizeOf(g, a) == SizeOf(h, a);
    hide Chain, MergeNext;
    MergeUsedQuiet(h, c, g, k);
    MergeUsedUse(h, c, g, k);
  }

  lemma MergeUsedQuiet(h: map<Addr, Header>, c: seq<Addr>, g: map<Addr, Header>, k: nat)
    requires k + 1 < |c| && Quiet(h, c) && c[k] in h && !h[c[k]].free
    requires (forall a | a in h :: a in g && g[a].free == h[a].free) && forall a | a in c :: a in h
    ensures Quiet(g, MergeChain(c, k))
  {
    var d := MergeChain(c, k);
    forall i | 0 <= i < |d| - 1 ensures !BothFree(g, d[i], d[i + 1]) {
      var j := if i <= k then i else i + 1;
      assert d[i] == c[j] && (i != k ==> d[i + 1] == c[j + 1] && !BothFree(h, c[j], c[j + 1]));
    }
  }

  lemma MergeUsedUse(h: map<Addr, Header>, c: seq<Addr>, g: map<Addr, Header>, k: nat)
    requires k + 1 < |c| && Distinct(c) && c[k + 1] in h && h[c[k + 1]].free
    requires (forall a | a in h :: a in g && g[a].free == h[a].free) && forall a | a in c :: a in h
    requires forall a | a in h && a != c[k] :: SizeOf(g, a) == SizeOf(h, a)
    ensures SameUseBut(h, c, g, MergeChain(c, k), c[k])
  {
    var d := MergeChain(c, k);
    forall a ensures (InUse(h, c, a) <==> InUse(g, d, a)) &&
      (InUse(h, c, a) && a != c[k] ==> SizeOf(h, a) == SizeOf(g, a)) {
      if a in c && a != c[k + 1] {
        var i :| 0 <= i < |c| && c[i] == a;
        assert d[if i <= k then i else i - 1] == a;
      }
    }
  }

  lemma SameUseButThen(h: map<Addr, Header>, c: seq<Addr>, g: map<Addr, Header>, d: seq<Addr>, f: map<Addr, Header>,
      b: seq<Addr>, e: Addr)
    requires SameUseBut(h, c, g, d, e)
    ensures SameUse(g, d, f, b) || SameUseBut(g, d, f, b, e) ==> SameUseBut(h, c, f, b, e)
    ensures InUse(h, c, e) ==> InUse(g, d, e)
    ensures SameUse(g, d, f, b) && InUse(g, d, e) ==> SizeOf(f, e) == SizeOf(g, e)
  {
  }

  lemma SplitAround(c: seq<Addr>, k: nat, n: Addr)
    requires k < |c|
    ensures var d := SplitChain(c, k, n); d[k] == c[k] && d[k + 1] == n && (k + 1 < |c| ==> d[k + 2] == c[k + 1])
    ensures |SplitChain(c, k, n)| == |c| + 1
  {
  }

  lemma MergeAround(c: seq<Addr>, k: nat)
    requires k + 1 < |c|
    ensures var d := MergeChain(c, k); |d| == |c| - 1 && d[k] == c[k] && (k > 0 ==> d[k - 1] == c[k - 1])
    ensures var d := MergeChain(c, k); k + 2 < |c| ==> d[k + 1] == c[k + 2]
  {
  }

  lemma MergeAt(c: seq<Addr>, k: nat)
    requires k + 1 < |c|
    ensures |MergeChain(c, k)| == |c| - 1 && forall i | 0 <= i <= k :: MergeChain(c, k)[i] == c[i]
  {
  }

  lemma SameUseSelf(h: map<Addr, Header>, c: seq<Addr>)
    ensures SameUse(h, c, h, c)
  {
  }

  lemma SameUseTrans(h: map<Addr, Header>, c: seq<Addr>, g: map<Addr, Header>, d: seq<Addr>, f: map<Addr, Header>,
      b: seq<Addr>)
    requires SameUse(h, c, g, d) && SameUse(g, d, f, b)
    ensures SameUse(h, c, f, b)
  {
  }

  lemma MergeStep(h: map<Addr, Header>, c: seq<Addr>, base: Addr, limit: nat, k: nat, at: nat)
    requires Chain(h, c, base, limit) && k + 1 < |c| && (at == k || at == k + 1) && QuietBut(h, c, at) &&
      BothFree(h, c[k], c[k + 1])
    ensures c[k] in h && h[c[k]].next in h
    ensures var g, d := MergeNext(h, c[k]), MergeChain(c, k);
      Chain(g, d, base, limit) && QuietBut(g, d, k) && SameUse(h, c, g, d)
    ensures var g := MergeNext(h, c[k]); forall a | a in h :: a in g && g[a].free == h[a].free
  {
    MergeKeepsChain(h, c, base, limit, k);
    MergeQuiet(h, c, base, limit, k, at);
    ChainDistinct(h, c, base, limit);
    MergeFrees(h, c, base, limit, k);
  }

  lemma LinksOf(h: map<Addr, Header>, c: seq<Addr>, base: Addr, limit: nat, k: nat)
    requires Chain(h, c, base, limit) && k < |c|
    ensures c[k] in h && h[c[k]].next == NextOf(c, k) && h[c[k]].prev == PrevOf(c, k) && c[k] > 0
    ensures h[c[k]].next != 0 <==> k + 1 < |c|
    ensures h[c[k]].prev != 0 <==> k > 0
    ensures h[c[k]].next != 0 ==> h[c[k]].next in h
    ensures h[c[k]].prev != 0 ==> h[c[k]].prev in h && h[h[c[k]].prev].next == c[k]
  {
    InMemory(h, c, base, limit);
    assert Block(h, c, k, limit);
    if k > 0 { assert Block(h, c, k - 1, limit); }
  }

  /** Around a block without free neighbours nothing is left to merge. */
  lemma QuietAgain(h: map<Addr, Header>, c: seq<Addr>, k: nat)
    requires QuietBut(h, c, k) && k < |c|
    requires k > 0 ==> !BothFree(h, c[k - 1], c[k])
    requires k + 1 < |c| ==> !BothFree(h, c[k], c[k + 1])
    ensures Quiet(h, c)
  {
  }

  /** Flags are no part of the chain. */
  lemma FlagKeepsChain(h: map<Addr, Header>, c: seq<Addr>, base: Addr, limit: nat, k: nat, free: bool)
    requires Chain(h, c, base, limit) && k < |c|
    ensures c[k] in h && Chain(h[c[k] := h[c[k]].(free := free)], c, base, limit)
    ensures Quiet(h, c) ==> QuietBut(h[c[k] := h[c[k]].(free := free)], c, k)
    ensures Quiet(h, c) && !free ==> Quiet(h[c[k] := h[c[k]].(free := free)], c)
  {
    ChainDistinct(h, c, base, limit);
    assert Block(h, c, k, limit);
    var g := h[c[k] := h[c[k]].(free := free)];
    forall i | 0 <= i < |c| ensures Block(g, c, i, limit) {
      assert Block(h, c, i, limit);
    }
    if Quiet(h, c) {
      forall i | 0 <= i < |c| - 1 && (!free || (i != k && i + 1 != k)) ensures !BothFree(g, c[i], c[i + 1]) {
        assert !BothFree(h, c[i], c[i + 1]);
      }
    }
  }

  /** The first block of the chain that suits. */
  ghost predicate FirstFit(h: map<Addr, Header>, c: seq<Addr>, a: Addr, size: nat) {
    Suits(h, a, size) && exists k :: 0 <= k < |c| && c[k] == a && forall i | 0 <= i < k :: !Suits(h, c[i], size)
  }
}