/**
 The pager: a sorted list of free address ranges and a two-level page table. A new page takes the
 lowest free frame and the lowest virtual page that is not mapped.
 */
module Pagers {
  import opened Links
  import opened Options

  const PAGE := 0x1000
  const TOP := 0x1_0000_0000
  const ENTRIES := 1024
  const TABLES_BASE := 0x300  // page numbers of the area for page tables
  const TABLES_LIMIT := 0x400

  type Ref = nat  // 0 is the null pointer

  datatype FreeBlock = FreeBlock(start: nat, end: nat, next: Ref, prev: Ref)

  // ---------- the free list ----------

  predicate Aligned(a: nat) { a % PAGE == 0 }

  /** One block of the list: whole pages, links that agree, and a gap or nothing before the next. */
  ghost predicate Node(m: map<Ref, FreeBlock>, c: seq<Ref>, i: nat)
    requires i < |c|
  {
    && c[i] in m && c[i] > 0 && m[c[i]].next == NextOf(c, i) && m[c[i]].prev == PrevOf(c, i)
    && Aligned(m[c[i]].start) && Aligned(m[c[i]].end + 1) && m[c[i]].start <= m[c[i]].end
    && if i + 1 < |c| then c[i + 1] in m && m[c[i]].end < m[c[i + 1]].start else m[c[i]].end == TOP - 1
  }

  /** Not empty, sorted and disjoint, up to the last address. */
  ghost predicate List(m: map<Ref, FreeBlock>, c: seq<Ref>) {
    && c != [] && (forall i | 0 <= i < |c| :: Node(m, c, i))
    && (forall i, j | 0 <= i < j < |c| :: c[i] != c[j])
  }

  ghost predicate In(m: map<Ref, FreeBlock>, r: Ref, a: nat) { r in m && m[r].start <= a <= m[r].end }

  /** Whether an address is free. */
  ghost predicate Covered(m: map<Ref, FreeBlock>, c: seq<Ref>, a: nat) {
    exists i :: 0 <= i < |c| && In(m, c[i], a)
  }

  lemma {:induction false} Sorted(m: map<Ref, FreeBlock>, c: seq<Ref>, i: nat, j: nat)
    requires List(m, c) && i < j < |c|
    ensures c[i] in m && c[j] in m && m[c[i]].end < m[c[j]].start
    decreases j
  {
    assert Node(m, c, j - 1) && Node(m, c, j);
    if i < j - 1 { Sorted(m, c, i, j - 1); }
  }

  lemma NodeOf(m: map<Ref, FreeBlock>, c: seq<Ref>, i: nat)
    requires List(m, c) && i < |c|
    ensures Node(m, c, i)
  {
  }

  lemma ListApart(m: map<Ref, FreeBlock>, c: seq<Ref>)
    requires List(m, c)
    ensures forall i, j | 0 <= i < j < |c| :: c[i] != c[j]
  {
  }

  /** A page is free as a whole or not at all. */
  lemma WholePages(m: map<Ref, FreeBlock>, c: seq<Ref>, p: nat, a: nat)
    requires List(m, c) && Aligned(p) && p <= a < p + PAGE
    ensures Covered(m, c, p) <==> Covered(m, c, a)
  {
    if Covered(m, c, p) {
      var i :| 0 <= i < |c| && In(m, c[i], p);
      NodeOf(m, c, i);
      PageInside(p, m[c[i]].start, m[c[i]].end, p);
      assert In(m, c[i], a);
    }
    if Covered(m, c, a) {
      var i :| 0 <= i < |c| && In(m, c[i], a);
      NodeOf(m, c, i);
      PageInside(p, m[c[i]].start, m[c[i]].end, a);
      assert In(m, c[i], p);
    }
  }

  lemma PageInside(p: nat, start: nat, end: nat, a: nat)
    requires Aligned(p) && Aligned(start) && Aligned(end + 1) && p <= a < p + PAGE && start <= a <= end
    ensures start <= p && p + PAGE <= end + 1
  {
  }

  // ---------- taking the lowest page ----------

  /** The list has lost the page `p` and nothing else. */
  ghost predicate Emptied(m: map<Ref, FreeBlock>, c: seq<Ref>, n: map<Ref, FreeBlock>, d: seq<Ref>, p: nat) {
    List(n, d) && forall a: nat :: Covered(n, d, a) <==> Covered(m, c, a) && !(p <= a < p + PAGE)
  }

  /** Removing the page at the start of the first block, which is not the last free page. */
  lemma RemoveWhole(m: map<Ref, FreeBlock>, c: seq<Ref>)
    requires List(m, c) && |c| > 1 && c[0] in m && c[1] in m && m[c[0]].start + PAGE - 1 == m[c[0]].end
    ensures Emptied(m, c, (m - {c[0]})[c[1] := m[c[1]].(prev := 0)], c[1..], m[c[0]].start)
  {
    NodeOf(m, c, 0);
    NodeOf(m, c, 1);
    var n, d := (m - {c[0]})[c[1] := m[c[1]].(prev := 0)], c[1..];
    forall i | 0 <= i < |d| ensures Node(n, d, i) {
      NodeOf(m, c, i + 1);
    }
    forall a: nat ensures Covered(n, d, a) <==> Covered(m, c, a) && !In(m, c[0], a) {
      if Covered(n, d, a) {
        var i :| 0 <= i < |d| && In(n, d[i], a);
        Sorted(m, c, 0, i + 1);
        assert In(m, c[i + 1], a);
      }
      if Covered(m, c, a) && !In(m, c[0], a) {
        var i :| 0 <= i < |c| && In(m, c[i], a);
        assert In(n, d[i - 1], a);
      }
    }
  }

  lemma RemovePart(m: map<Ref, FreeBlock>, c: seq<Ref>)
    requires List(m, c) && c[0] in m && m[c[0]].start + PAGE <= m[c[0]].end
    ensures Emptied(m, c, m[c[0] := m[c[0]].(start := m[c[0]].start + PAGE)], c, m[c[0]].start)
  {
    NodeOf(m, c, 0);
    var p := m[c[0]].start;
    var n := m[c[0] := m[c[0]].(start := p + PAGE)];
    forall i | 0 <= i < |c| ensures Node(n, c, i) {
      NodeOf(m, c, i);
    }
    forall a: nat ensures Covered(n, c, a) <==> Covered(m, c, a) && !(p <= a < p + PAGE) {
      if Covered(n, c, a) {
        var i :| 0 <= i < |c| && In(n, c[i], a);
        if i > 0 { Sorted(m, c, 0, i); }
        assert In(m, c[i], a);
      }
      if Covered(m, c, a) && !(p <= a < p + PAGE) {
        var i :| 0 <= i < |c| && In(m, c[i], a);
        assert In(n, c[i], a);
      }
    }
  }

  // ---------- taking any page ----------

  /** The blocks after a page has been taken from the first block, whether it lies in it or not. Addresses wrap. */
  function Without(m: map<Ref, FreeBlock>, c: seq<Ref>, r: Ref, p: nat): map<Ref, FreeBlock>
    requires c != [] && c[0] in m && (|c| > 1 ==> c[1] in m)
  {
    var e, end := c[0], p + PAGE - 1;
    if p == m[e].start && end == m[e].end then
      (if |c| > 1 then (m - {e})[c[1] := m[c[1]].(prev := 0)] else m - {e})
    else if p == m[e].start then m[e := m[e].(start := (end + 1) % TOP)]
    else if end == m[e].end then m[e := m[e].(end := (p + TOP - 1) % TOP)]
    else m[r := FreeBlock((end + 1) % TOP, m[e].end, m[e].next, e)][e := m[e].(next := r, end := (p + TOP - 1) % TOP)]
  }

  /** The list that the links of the new first block begin. */
  function ChainWithout(m: map<Ref, FreeBlock>, c: seq<Ref>, r: Ref, p: nat): seq<Ref>
    requires c != [] && c[0] in m
  {
    var e, end := m[c[0]], p + PAGE - 1;
    if p == e.start && end == e.end then c[1..] else if p == e.start || end == e.end then c else [c[0], r] + c[1..]
  }

  /** The page lies in the first block, is not the last one of all, and is at one of the ends of the block
      if there is another block. */
  predicate Clean(m: map<Ref, FreeBlock>, c: seq<Ref>, p: nat) {
    && c != [] && c[0] in m && m[c[0]].start <= p <= m[c[0]].end && p + PAGE < TOP
    && (p == m[c[0]].start || p + PAGE - 1 == m[c[0]].end || |c| == 1)
  }

  /** Exactly then the list stays a list, without that page. */
  lemma TakesPage(m: map<Ref, FreeBlock>, c: seq<Ref>, r: Ref, p: nat)
    requires List(m, c) && Aligned(p) && p + PAGE <= TOP && r > 0 && r !in m
    ensures c[0] in m && (|c| > 1 ==> c[1] in m)
    ensures Clean(m, c, p) ==> Emptied(m, c, Without(m, c, r, p), ChainWithout(m, c, r, p), p)
    ensures List(Without(m, c, r, p), ChainWithout(m, c, r, p)) ==> Clean(m, c, p)
  {
    NodeOf(m, c, 0);
    if |c| > 1 { NodeOf(m, c, 1); }
    hide List, Without, ChainWithout, Emptied, Covered, Clean, Node;
    if Clean(m, c, p) { CleanTakes(m, c, r, p); } else { NotClean(m, c, r, p); }
  }

  lemma CleanTakes(m: map<Ref, FreeBlock>, c: seq<Ref>, r: Ref, p: nat)
    requires List(m, c) && Clean(m, c, p) && Aligned(p) && r > 0 && r !in m && (|c| > 1 ==> c[1] in m)
    ensures Emptied(m, c, Without(m, c, r, p), ChainWithout(m, c, r, p), p)
  {
    NodeOf(m, c, 0);
    PageInside(p, m[c[0]].start, m[c[0]].end, p);
    Wraps(p);
    hide List, Covered, Node, Emptied, Aligned;
    if p == m[c[0]].start && p + PAGE - 1 == m[c[0]].end {
      RemoveWhole(m, c);
    } else if p == m[c[0]].start {
      assert Without(m, c, r, p) == m[c[0] := m[c[0]].(start := p + PAGE)];
      RemovePart(m, c);
    } else if p + PAGE - 1 == m[c[0]].end {
      assert Without(m, c, r, p) == m[c[0] := m[c[0]].(end := p - 1)];
      RemoveEnd(m, c, p);
    } else {
      RemoveMiddle(m, c, r, p);
      assert ChainWithout(m, c, r, p) == [c[0], r];
    }
  }

  lemma Wraps(p: nat)
    requires p + PAGE < TOP
    ensures (p + PAGE - 1 + 1) % TOP == p + PAGE && (p > 0 ==> (p + TOP - 1) % TOP == p - 1)
  {
  }

  lemma NotClean(m: map<Ref, FreeBlock>, c: seq<Ref>, r: Ref, p: nat)
    requires List(m, c) && Aligned(p) && p + PAGE <= TOP && r > 0 && r !in m && !Clean(m, c, p)
    requires c[0] in m && (|c| > 1 ==> c[1] in m)
    ensures !List(Without(m, c, r, p), ChainWithout(m, c, r, p))
  {
    var n, d := Without(m, c, r, p), ChainWithout(m, c, r, p);
    NodeOf(m, c, 0);
    if |c| > 1 {
      Sorted(m, c, 0, |c| - 1);
      NodeOf(m, c, 1);
      NodeOf(m, c, |c| - 1);
      assert c[0] != c[1];
    }
    FirstNodes(n, d);
    PageOutside(p, m[c[0]].start, m[c[0]].end);
    hide List;
  }

  lemma FirstNodes(m: map<Ref, FreeBlock>, c: seq<Ref>)
    ensures List(m, c) ==> c != [] && Node(m, c, 0) && (|c| > 2 ==> Node(m, c, 2))
  {
  }

  /** Whole pages: a page that starts in a block ends in it. */
  lemma PageOutside(p: nat, start: nat, end: nat)
    requires Aligned(p) && Aligned(start) && Aligned(end + 1) && start <= end
    ensures p == start || p + PAGE - 1 == end ==> start <= p <= end
    ensures start <= p <= end ==> p + PAGE - 1 <= end
  {
  }

  lemma RemoveEnd(m: map<Ref, FreeBlock>, c: seq<Ref>, p: nat)
    requires List(m, c) && |c| > 1 && c[0] in m && Aligned(p) && m[c[0]].start < p && p + PAGE - 1 == m[c[0]].end
    ensures Emptied(m, c, m[c[0] := m[c[0]].(end := p - 1)], c, p)
  {
    NodeOf(m, c, 0);
    var n := m[c[0] := m[c[0]].(end := p - 1)];
    forall i | 0 <= i < |c| ensures Node(n, c, i) {
      NodeOf(m, c, i);
    }
    forall a: nat ensures Covered(n, c, a) <==> Covered(m, c, a) && !(p <= a < p + PAGE) {
      if Covered(n, c, a) {
        var i :| 0 <= i < |c| && In(n, c[i], a);
        if i > 0 { Sorted(m, c, 0, i); }
        assert In(m, c[i], a);
      }
      if Covered(m, c, a) && !(p <= a < p + PAGE) {
        var i :| 0 <= i < |c| && In(m, c[i], a);
        assert In(n, c[i], a);
      }
    }
  }

  /** A list of one block is split; with more, the link back to the first would be wrong. */
  lemma RemoveMiddle(m: map<Ref, FreeBlock>, c: seq<Ref>, r: Ref, p: nat)
    requires List(m, c) && |c| == 1 && c[0] in m && Aligned(p) && m[c[0]].start < p && p + PAGE - 1 < m[c[0]].end
    requires r > 0 && r !in m
    ensures Emptied(m, c, Without(m, c, r, p), [c[0], r], p)
  {
    NodeOf(m, c, 0);
    PageInside(p, m[c[0]].start, m[c[0]].end, p);
    var n, d := Without(m, c, r, p), [c[0], r];
    assert Node(n, d, 0) && Node(n, d, 1);
    forall a: nat ensures Covered(n, d, a) <==> Covered(m, c, a) && !(p <= a < p + PAGE) {
      if Covered(m, c, a) && !(p <= a < p + PAGE) {
        assert In(m, c[0], a);
        assert In(n, d[if a < p then 0 else 1], a);
      }
      if Covered(n, d, a) {
        assert In(m, c[0], a);
      }
    }
  }

  // ---------- giving a page back ----------

  /** The block behind the page `p`: the first one that does not start before it. */
  ghost predicate Gap(m: map<Ref, FreeBlock>, c: seq<Ref>, k: nat, p: nat) {
    && k < |c| && (forall i | 0 <= i < k :: c[i] in m && m[c[i]].start < p) && c[k] in m && p <= m[c[k]].start
  }

  /** A page that is not free lies between two blocks. */
  lemma GapBounds(m: map<Ref, FreeBlock>, c: seq<Ref>, k: nat, p: nat)
    requires List(m, c) && Gap(m, c, k, p) && Aligned(p) && !Covered(m, c, p)
    ensures p + PAGE <= m[c[k]].start && (k > 0 ==> c[k - 1] in m && m[c[k - 1]].end < p)
  {
    NodeOf(m, c, k);
    assert !In(m, c[k], p);
    if k > 0 {
      NodeOf(m, c, k - 1);
      assert !In(m, c[k - 1], p);
    }
  }

  lemma FillBefore(m: map<Ref, FreeBlock>, c: seq<Ref>, k: nat, p: nat)
    requires List(m, c) && Gap(m, c, k, p) && Aligned(p) && !Covered(m, c, p) && k > 0
    requires c[k - 1] in m && m[c[k - 1]].end + 1 == p
    ensures Filled(m, c, m[c[k - 1] := m[c[k - 1]].(end := p + PAGE - 1)], c, p)
  {
    GapBounds(m, c, k, p);
    var b := c[k - 1];
    NodeOf(m, c, k - 1);
    var n := m[b := m[b].(end := p + PAGE - 1)];
    forall i | 0 <= i < |c| ensures Node(n, c, i) {
      NodeOf(m, c, i);
    }
    forall a: nat ensures Covered(n, c, a) <==> Covered(m, c, a) || p <= a < p + PAGE {
      if Covered(n, c, a) {
        var i :| 0 <= i < |c| && In(n, c[i], a);
        assert i != k - 1 ==> In(m, c[i], a);
        if i == k - 1 && a < p { assert In(m, c[i], a); }
      }
      if Covered(m, c, a) {
        var i :| 0 <= i < |c| && In(m, c[i], a);
        assert In(n, c[i], a);
      }
      if p <= a < p + PAGE { assert In(n, b, a) && c[k - 1] == b; }
    }
  }

  lemma FillAfter(m: map<Ref, FreeBlock>, c: seq<Ref>, k: nat, p: nat)
    requires List(m, c) && Gap(m, c, k, p) && Aligned(p) && !Covered(m, c, p) && m[c[k]].start == p + PAGE
    ensures Filled(m, c, m[c[k] := m[c[k]].(start := p)], c, p)
  {
    GapBounds(m, c, k, p);
    var b := c[k];
    NodeOf(m, c, k);
    var n := m[b := m[b].(start := p)];
    forall i | 0 <= i < |c| ensures Node(n, c, i) {
      NodeOf(m, c, i);
    }
    forall a: nat ensures Covered(n, c, a) <==> Covered(m, c, a) || p <= a < p + PAGE {
      if Covered(n, c, a) {
        var i :| 0 <= i < |c| && In(n, c[i], a);
        assert i != k ==> In(m, c[i], a);
        if i == k && a >= p + PAGE { assert In(m, c[i], a); }
      }
      if Covered(m, c, a) {
        var i :| 0 <= i < |c| && In(m, c[i], a);
        assert In(n, c[i], a);
      }
      if p <= a < p + PAGE { assert In(n, b, a) && c[k] == b; }
    }
  }

  /** The list has gained the page `p` and nothing else. */
  ghost predicate Filled(m: map<Ref, FreeBlock>, c: seq<Ref>, n: map<Ref, FreeBlock>, d: seq<Ref>, p: nat) {
    List(n, d) && forall a: nat :: Covered(n, d, a) <==> Covered(m, c, a) || p <= a < p + PAGE
  }

  function Inserted(m: map<Ref, FreeBlock>, c: seq<Ref>, k: nat, r: Ref, p: nat): map<Ref, FreeBlock>
    requires k < |c| && c[k] in m && (k > 0 ==> c[k - 1] in m)
  {
    var n := m[r := FreeBlock(p, p + PAGE - 1, c[k], PrevOf(c, k))];
    var n' := if k > 0 && c[k - 1] in n then n[c[k - 1] := n[c[k - 1]].(next := r)] else n;
    if c[k] in n' then n'[c[k] := n'[c[k]].(prev := r)] else n'
  }

  lemma FillBetween(m: map<Ref, FreeBlock>, c: seq<Ref>, k: nat, r: Ref, p: nat)
    requires List(m, c) && Gap(m, c, k, p) && Aligned(p) && !Covered(m, c, p) && r > 0 && r !in m
    requires k > 0 ==> c[k - 1] in m
    ensures Filled(m, c, Inserted(m, c, k, r, p), c[..k] + [r] + c[k..], p)
  {
    GapBounds(m, c, k, p);
    var n, d := Inserted(m, c, k, r, p), c[..k] + [r] + c[k..];
    assert forall i | 0 <= i < |c| :: c[i] in m by {
      forall i | 0 <= i < |c| ensures c[i] in m { NodeOf(m, c, i); }
    }
    InsertedRefs(m, c, k, r);
    hide List, Node, Inserted, Covered;
    forall i | 0 <= i < |d| ensures Node(n, d, i) {
      InsertedNode(m, c, k, r, p, i);
    }
    forall a: nat ensures Covered(n, d, a) <==> Covered(m, c, a) || p <= a < p + PAGE {
      InsertedCovers(m, c, k, r, p, a);
    }
    ListIs(n, d);
  }

  lemma ListIs(m: map<Ref, FreeBlock>, c: seq<Ref>)
    requires c != [] && (forall i | 0 <= i < |c| :: Node(m, c, i))
    requires forall i, j | 0 <= i < j < |c| :: c[i] != c[j]
    ensures List(m, c)
  {
  }

  lemma InsertedRefs(m: map<Ref, FreeBlock>, c: seq<Ref>, k: nat, r: Ref)
    requires List(m, c) && k < |c| && r !in m && forall i | 0 <= i < |c| :: c[i] in m
    ensures var d := c[..k] + [r] + c[k..]; forall i, j | 0 <= i < j < |d| :: d[i] != d[j]
  {
  }

  lemma InsertedNode(m: map<Ref, FreeBlock>, c: seq<Ref>, k: nat, r: Ref, p: nat, i: nat)
    requires List(m, c) && k < |c| && r !in m && r > 0 && i <= |c| && (forall j | 0 <= j < |c| :: c[j] in m)
    requires Aligned(p) && p + PAGE <= m[c[k]].start && (k > 0 ==> m[c[k - 1]].end < p)
    ensures Node(Inserted(m, c, k, r, p), c[..k] + [r] + c[k..], i)
  {
    if i == k { NewNode(m, c, k, r, p); } else { OldNode(m, c, k, r, p, i); }
  }

  lemma NewNode(m: map<Ref, FreeBlock>, c: seq<Ref>, k: nat, r: Ref, p: nat)
    requires List(m, c) && k < |c| && r !in m && r > 0 && c[k] in m && (k > 0 ==> c[k - 1] in m)
    requires Aligned(p) && p + PAGE <= m[c[k]].start
    ensures Node(Inserted(m, c, k, r, p), c[..k] + [r] + c[k..], k)
  {
    if k > 0 { Differ(c, k, k - 1); }
    InsertedPlaces(c, k, r, k);
    InsertedBlocks(m, c, k, r, p, c[k]);
    assert Aligned(p + PAGE);
    hide List, Inserted, Aligned;
  }

  lemma OldNode(m: map<Ref, FreeBlock>, c: seq<Ref>, k: nat, r: Ref, p: nat, i: nat)
    requires List(m, c) && k < |c| && r !in m && r > 0 && i <= |c| && i != k && (forall j | 0 <= j < |c| :: c[j] in m)
    requires p + PAGE <= m[c[k]].start && (k > 0 ==> m[c[k - 1]].end < p)
    ensures Node(Inserted(m, c, k, r, p), c[..k] + [r] + c[k..], i)
  {
    hide List, Inserted, Aligned;
    ListApart(m, c);
    var j := if i < k then i else i - 1;
    NodeOf(m, c, j);
    Differ(c, j, k);
    if k > 0 { Differ(c, j, k - 1); }
    InsertedPlaces(c, k, r, i);
    InsertedBlocks(m, c, k, r, p, c[j]);
    if j + 1 < |c| {
      Differ(c, j + 1, k);
      if k > 0 { Differ(c, j + 1, k - 1); }
      InsertedBlocks(m, c, k, r, p, c[j + 1]);
    }
  }

  lemma Differ(c: seq<Ref>, i: nat, j: nat)
    requires i < |c| && j < |c| && forall i, j | 0 <= i < j < |c| :: c[i] != c[j]
    ensures c[i] == c[j] <==> i == j
  {
  }

  lemma InsertedPlaces(c: seq<Ref>, k: nat, r: Ref, i: nat)
    requires k < |c| && i <= |c|
    ensures var d := c[..k] + [r] + c[k..];
      |d| == |c| + 1 && d[i] == (if i < k then c[i] else if i == k then r else c[i - 1])
    ensures var d := c[..k] + [r] + c[k..];
      NextOf(d, i) == (if i + 1 == k then r else if i == k then c[k] else if i < k then NextOf(c, i)
        else NextOf(c, i - 1))
    ensures var d := c[..k] + [r] + c[k..];
      PrevOf(d, i) == (if i <= k then PrevOf(c, i) else if i == k + 1 then r else PrevOf(c, i - 1))
    ensures var d := c[..k] + [r] + c[k..];
      i < |c| ==> d[i + 1] == (if i + 1 < k then c[i + 1] else if i + 1 == k then r else c[i])
  {
  }

  lemma InsertedBlocks(m: map<Ref, FreeBlock>, c: seq<Ref>, k: nat, r: Ref, p: nat, x: Ref)
    requires k < |c| && r !in m && c[k] in m && (k > 0 ==> c[k - 1] in m && c[k - 1] != c[k]) && x in m
    ensures var n := Inserted(m, c, k, r, p);
      && r in n && n[r] == FreeBlock(p, p + PAGE - 1, c[k], PrevOf(c, k)) && x in n
      && n[x] == (if x == c[k] then m[x].(prev := r) else if k > 0 && x == c[k - 1] then m[x].(next := r) else m[x])
  {
  }

  lemma InsertedCovers(m: map<Ref, FreeBlock>, c: seq<Ref>, k: nat, r: Ref, p: nat, a: nat)
    requires k < |c| && r !in m && (forall i | 0 <= i < |c| :: c[i] in m)
    ensures Covered(Inserted(m, c, k, r, p), c[..k] + [r] + c[k..], a) <==> Covered(m, c, a) || p <= a < p + PAGE
  {
    var n, d := Inserted(m, c, k, r, p), c[..k] + [r] + c[k..];
    if Covered(n, d, a) {
      var i :| 0 <= i < |d| && In(n, d[i], a);
      if i != k { assert In(m, c[if i < k then i else i - 1], a); }
    }
    if Covered(m, c, a) {
      var i :| 0 <= i < |c| && In(m, c[i], a);
      assert In(n, d[if i < k then i else i + 1], a);
    }
    if p <= a < p + PAGE { assert In(n, d[k], a); }
  }

  // ---------- page tables ----------

  /** A table entry: twelve flag bits and a page number. */
  datatype Entry = Entry(bits: bv12, frame: nat)
  {
    predicate Present() { bits & 1 != 0 }

    /** Present, writeable, write-through, and the caller's flags. */
    function With(flags: bv12): (e: Entry)
      ensures e.Present() && e.frame == frame
    {
      Entry((bits | 11) | flags, frame)
    }

    function Absent(): (e: Entry)
      ensures !e.Present()
    {
      this.(bits := bits & 0xFFE)
    }
  }

  type Table = seq<Entry>

  function Mapped(e: Entry): Option<nat> { if e.Present() then Some(e.frame) else None }

  /** A directory of tables, all different and of full length. */
  ghost predicate Tables(root: Table, tables: map<nat, Table>) {
    && |root| == ENTRIES
    && (forall i | 0 <= i < ENTRIES && root[i].Present() ::
      root[i].frame in tables && |tables[root[i].frame]| == ENTRIES)
    && (forall i, j | 0 <= i < j < ENTRIES && root[i].Present() && root[j].Present() :: root[i].frame != root[j].frame)
  }

  /** The frame to which the directory maps the virtual page `v`. */
  function FrameAt(root: Table, tables: map<nat, Table>, v: nat): Option<nat>
    requires v < ENTRIES * ENTRIES && |root| == ENTRIES
  {
    var d := root[v / ENTRIES];
    if d.Present() && d.frame in tables && |tables[d.frame]| == ENTRIES && tables[d.frame][v % ENTRIES].Present()
    then Some(tables[d.frame][v % ENTRIES].frame)
    else None
  }

  /** The flag bits kept for the virtual page `v`, mapped or not; none without a table. */
  function BitsAt(root: Table, tables: map<nat, Table>, v: nat): bv12
    requires v < ENTRIES * ENTRIES && |root| == ENTRIES
  {
    var d := root[v / ENTRIES];
    if d.Present() && d.frame in tables && |tables[d.frame]| == ENTRIES then tables[d.frame][v % ENTRIES].bits else 0
  }

  function TablePut(root: Table, tables: map<nat, Table>, v: nat, e: Entry): map<nat, Table>
    requires v < ENTRIES * ENTRIES && |root| == ENTRIES
    requires var t := root[v / ENTRIES].frame; t in tables && |tables[t]| == ENTRIES
  {
    var t := root[v / ENTRIES].frame;
    tables[t := tables[t][v % ENTRIES := e]]
  }

  /** Writing one entry changes the translation of one page. */
  lemma PutTranslates(root: Table, tables: map<nat, Table>, v: nat, e: Entry)
    requires Tables(root, tables) && v < ENTRIES * ENTRIES && root[v / ENTRIES].Present()
    ensures Tables(root, TablePut(root, tables, v, e))
    ensures forall w | 0 <= w < ENTRIES * ENTRIES ::
      FrameAt(root, TablePut(root, tables, v, e), w) == if w == v then Mapped(e) else FrameAt(root, tables, w)
    ensures forall w | 0 <= w < ENTRIES * ENTRIES ::
      BitsAt(root, TablePut(root, tables, v, e), w) == if w == v then e.bits else BitsAt(root, tables, w)
  {
    var n := TablePut(root, tables, v, e);
    forall w | 0 <= w < ENTRIES * ENTRIES
      ensures FrameAt(root, n, w) == if w == v then Mapped(e) else FrameAt(root, tables, w)
      ensures BitsAt(root, n, w) == if w == v then e.bits else BitsAt(root, tables, w)
    {
      assert w == w / ENTRIES * ENTRIES + w % ENTRIES && v == v / ENTRIES * ENTRIES + v % ENTRIES;
      assert w / ENTRIES != v / ENTRIES && root[w / ENTRIES].Present() ==>
        root[w / ENTRIES].frame != root[v / ENTRIES].frame;
    }
  }

  function Blank(): (t: Table)
    ensures |t| == ENTRIES && forall i | 0 <= i < ENTRIES :: t[i].bits == 0 && !t[i].Present()
  {
    seq(ENTRIES, i => Entry(0, 0))
  }

  /** A new, empty table changes no translation. */
  lemma NewTableTranslates(root: Table, tables: map<nat, Table>, i: nat, t: nat, e: Entry)
    requires Tables(root, tables) && i < ENTRIES && !root[i].Present() && e.Present() && e.frame == t
    requires forall j | 0 <= j < ENTRIES && root[j].Present() :: root[j].frame != t
    ensures Tables(root[i := e], tables[t := Blank()])
    ensures forall w | 0 <= w < ENTRIES * ENTRIES ::
      && FrameAt(root[i := e], tables[t := Blank()], w) == FrameAt(root, tables, w)
      && BitsAt(root[i := e], tables[t := Blank()], w) == BitsAt(root, tables, w)
  {
  }

  // ---------- who owns a frame ----------

  /** Every frame is free, mapped by exactly one virtual page, or reserved. */
  ghost predicate Owned(m: map<Ref, FreeBlock>, c: seq<Ref>, root: Table, tables: map<nat, Table>, reserved: set<nat>)
    requires |root| == ENTRIES
  {
    && (forall v: nat, f: nat | Maps(root, tables, v, f) ::
      f < TOP / PAGE && !Covered(m, c, f * PAGE) && f !in reserved)
    && (forall v: nat, w: nat, f: nat | Maps(root, tables, v, f) && Maps(root, tables, w, f) :: v == w)
    && (forall f: nat | f in reserved :: f < TOP / PAGE && !Covered(m, c, f * PAGE))
    && (forall f: nat | f < TOP / PAGE ::
          Covered(m, c, f * PAGE) || f in reserved || exists v :: Maps(root, tables, v, f))
  }

  ghost predicate Maps(root: Table, tables: map<nat, Table>, v: nat, f: nat)
    requires |root| == ENTRIES
  {
    v < ENTRIES * ENTRIES && FrameAt(root, tables, v) == Some(f)
  }

  ghost predicate LowestUnmapped(root: Table, tables: map<nat, Table>, v: nat)
    requires |root| == ENTRIES && v < ENTRIES * ENTRIES
  {
    FrameAt(root, tables, v) == None && forall w | 0 <= w < v :: FrameAt(root, tables, w) != None
  }

  ghost predicate SelfMapped(root: Table, tables: map<nat, Table>)
    requires |root| == ENTRIES
  {
    forall v | 0 <= v < TABLES_LIMIT :: FrameAt(root, tables, v) == Some(v)
  }

  /** Then no frame that holds a table is free, or mapped by any page but its own. */
  lemma TablesKept(m: map<Ref, FreeBlock>, c: seq<Ref>, root: Table, tables: map<nat, Table>, reserved: set<nat>,
      t: nat)
    requires |root| == ENTRIES && Owned(m, c, root, tables, reserved) && SelfMapped(root, tables) && t < TABLES_LIMIT
    ensures !Covered(m, c, t * PAGE) && t !in reserved && forall v: nat :: Maps(root, tables, v, t) <==> v == t
  {
    assert Maps(root, tables, t, t);
  }

  /** A frame that is mapped is never `Clean`: mapping it again, as the start of a program does with the pages it
      has filled, breaks the list. */
  lemma MappedNotClean(m: map<Ref, FreeBlock>, c: seq<Ref>, root: Table, tables: map<nat, Table>, reserved: set<nat>,
      v: nat, f: nat)
    requires |root| == ENTRIES && Owned(m, c, root, tables, reserved) && Maps(root, tables, v, f)
    ensures !Clean(m, c, f * PAGE)
  {
    if Clean(m, c, f * PAGE) { assert In(m, c[0], f * PAGE); }
  }

  /** A free frame becomes the one that `v` maps. */
  lemma OwnedMap(m: map<Ref, FreeBlock>, c: seq<Ref>, root: Table, tables: map<nat, Table>, reserved: set<nat>,
      n: map<Ref, FreeBlock>, d: seq<Ref>, root': Table, tables': map<nat, Table>, v: nat, f: nat)
    requires |root| == |root'| == ENTRIES && Owned(m, c, root, tables, reserved) && v < ENTRIES * ENTRIES
    requires Covered(m, c, f * PAGE) && f < TOP / PAGE && FrameAt(root, tables, v) == None
    requires forall g: nat :: Covered(n, d, g * PAGE) <==> Covered(m, c, g * PAGE) && g != f
    requires forall w | 0 <= w < ENTRIES * ENTRIES ::
      FrameAt(root', tables', w) == if w == v then Some(f) else FrameAt(root, tables, w)
    ensures Owned(n, d, root', tables', reserved)
  {
    assert Maps(root', tables', v, f);
    forall g: nat | g < TOP / PAGE
      ensures Covered(n, d, g * PAGE) || g in reserved || exists w :: Maps(root', tables', w, g)
    {
      if !Covered(m, c, g * PAGE) && g !in reserved {
        var w :| Maps(root, tables, w, g);
        assert Maps(root', tables', w, g);
      }
    }
    forall w: nat, g: nat | Maps(root', tables', w, g) ensures w == v || Maps(root, tables, w, g) {
    }
  }

  /** The frame that `v` maps becomes free. */
  lemma OwnedUnmap(m: map<Ref, FreeBlock>, c: seq<Ref>, root: Table, tables: map<nat, Table>, reserved: set<nat>,
      n: map<Ref, FreeBlock>, d: seq<Ref>, tables': map<nat, Table>, v: nat, f: nat)
    requires |root| == ENTRIES && Owned(m, c, root, tables, reserved) && Maps(root, tables, v, f)
    requires forall g: nat :: Covered(n, d, g * PAGE) <==> Covered(m, c, g * PAGE) || g == f
    requires forall w | 0 <= w < ENTRIES * ENTRIES ::
      FrameAt(root, tables', w) == if w == v then None else FrameAt(root, tables, w)
    ensures Owned(n, d, root, tables', reserved)
  {
    forall g: nat | g < TOP / PAGE
      ensures Covered(n, d, g * PAGE) || g in reserved || exists w :: Maps(root, tables', w, g)
    {
      if !Covered(n, d, g * PAGE) && g !in reserved {
        var w :| Maps(root, tables, w, g);
        assert Maps(root, tables', w, g);
      }
    }
    forall w: nat, g: nat | Maps(root, tables', w, g) ensures w != v && Maps(root, tables, w, g) {
    }
  }

  function StartOf(m: map<Ref, FreeBlock>, r: Ref): nat { if r in m then m[r].start else 0 }

  const PAGER_ERROR := TOP - 1

  /** The page that is asked for, rounded up, or the one offered. */
  function Chosen(address: Option<nat>, lowest: nat): nat {
    match address case None => lowest case Some(a) => (a + PAGE - 1) / PAGE * PAGE % TOP
  }

  /** An address that is asked for lies in the page before the one chosen or starts it; in the last page but
      for its start it wraps to page 0. */
  lemma ChosenIs(address: Option<nat>, lowest: nat)
    requires address.Some? ==> address.value < TOP
    ensures var p := Chosen(address, lowest);
      && (address == None ==> p == lowest)
      && (address.Some? ==> p % 0x1000 == 0)
      && (address.Some? && address.value <= 0xFFFF_F000 ==> address.value <= p < address.value + 0x1000)
      && (address.Some? && address.value > 0xFFFF_F000 ==> p == 0)
  {
    if address.Some? {
      var q := (address.value + PAGE - 1) / PAGE;
      if address.value > 0xFFFF_F000 { assert q * PAGE == TOP; }
    }
  }

  class Pager {
    var blocks: map<Ref, FreeBlock>
    var firstBlock: Ref
    var newRef: Ref  // what the kernel heap hands out next
    var root: Table
    var tables: map<nat, Table>
    var tablesEnd: nat
    ghost var chain: seq<Ref>
    ghost const reserved: set<nat>  // frames that other page tables map

    ghost predicate ListValid()
      reads this
    {
      List(blocks, chain) && firstBlock == chain[0] && newRef > 0 && forall r | r in blocks :: r < newRef
    }

    ghost predicate TablesValid()
      reads this
    {
      && |root| == ENTRIES && Tables(root, tables) && TABLES_BASE < tablesEnd <= TABLES_LIMIT
      && forall i | 0 <= i < ENTRIES && root[i].Present() :: TABLES_BASE < root[i].frame < tablesEnd
    }

    /** The pages below 4 MiB, where all tables are, are mapped to themselves. */
    ghost predicate LowIdentity()
      reads this
    {
      |root| == ENTRIES && SelfMapped(root, tables)
    }

    /** The lowest page that is not mapped has a table, or there is room for one. */
    ghost predicate TableRoom()
      reads this
      requires |root| == ENTRIES
    {
      forall v | 0 <= v < ENTRIES * ENTRIES && LowestUnmapped(root, tables, v) ::
        root[v / ENTRIES].Present() || tablesEnd < TABLES_LIMIT
    }

    ghost predicate Valid()
      reads this
    {
      ListValid() && TablesValid() && Owned(blocks, chain, root, tables, reserved)
    }

    /** All memory is free and nothing is mapped; the directory is in the first frame for tables. */
    constructor ()
      ensures Valid() && forall a: nat :: Covered(blocks, chain, a) <==> a < TOP
      ensures tablesEnd == TABLES_BASE + 1 && forall v | 0 <= v < ENTRIES * ENTRIES :: FrameAt(root, tables, v) == None
    {
      firstBlock, newRef := 1, 2;
      blocks := map[1 := FreeBlock(0, TOP - 1, 0, 0)];
      root, tables, tablesEnd := Blank(), map[], TABLES_BASE + 1;
      chain, reserved := [1], {};
      new;
      forall a: nat ensures Covered(blocks, chain, a) <==> a < TOP {
        if a < TOP { assert In(blocks, chain[0], a); }
      }
    }

    /** Takes a page from the first block, without looking whether it lies there; it must not be the last block. */
    method PagerRemove(p: nat)
      requires ListValid() && Aligned(p) && p + PAGE <= TOP
      requires p == StartOf(blocks, firstBlock) ==> p + PAGE < TOP
      modifies this`blocks, this`firstBlock, this`newRef, this`chain
      ensures ListValid() <==> Clean(old(blocks), old(chain), p)
      ensures ListValid() ==> Emptied(old(blocks), old(chain), blocks, chain, p)
    {
      FirstBlock(blocks, chain);
      TakesPage(blocks, chain, newRef, p);
      ghost var m, c := blocks, chain;
      hide List, Node, Emptied, Covered, Clean, Aligned;
      var entry: Ref := firstBlock;
      var end := p + PAGE - 1;
      chain := ChainWithout(blocks, chain, newRef, p);
      if p == blocks[entry].start && end == blocks[entry].end {
        firstBlock := blocks[entry].next;
        blocks := (blocks - {entry})[firstBlock := blocks[firstBlock].(prev := 0)];
      } else if p == blocks[entry].start {
        blocks := blocks[entry := blocks[entry].(start := (end + 1) % TOP)];
      } else if end == blocks[entry].end {
        blocks := blocks[entry := blocks[entry].(end := (p + TOP - 1) % TOP)];
      } else {
        var r := newRef;
        newRef := newRef + 1;
        blocks := blocks[r := FreeBlock((end + 1) % TOP, blocks[entry].end, blocks[entry].next, entry)];
        blocks := blocks[entry := blocks[entry].(next := r, end := (p + TOP - 1) % TOP)];
      }
      assert blocks == Without(m, c, old(newRef), p);
    }

    /** Gives the page at `start` back, joined to the block before or else to the one behind it. */
    method PagerFill(start: nat)
      requires ListValid() && Aligned(start) && start < TOP && !Covered(blocks, chain, start)
      modifies this`blocks, this`firstBlock, this`newRef, this`chain
      ensures ListValid() && Filled(old(blocks), old(chain), blocks, chain, start)
    {
      var end := start + PAGE - 1;
      var entry: Ref := firstBlock;
      ghost var k := 0;
      LastEnds(blocks, chain, start);
      while blocks[entry].start < start
        invariant unchanged(this) && k < |chain| && entry == chain[k] && entry in blocks
        invariant forall i | 0 <= i < k :: chain[i] in blocks && blocks[chain[i]].start < start
        decreases |chain| - k
      {
        NodeOf(blocks, chain, k);
        entry := blocks[entry].next;
        k := k + 1;
      }
      NodeOf(blocks, chain, k);
      if k > 0 { NodeOf(blocks, chain, k - 1); }
      hide Filled, List, Node;
      var before := blocks[entry].prev;
      if before != 0 && blocks[before].end + 1 == start {
        FillBefore(blocks, chain, k, start);
        blocks := blocks[before := blocks[before].(end := end)];
        return;
      }
      GapBounds(blocks, chain, k, start);
      if blocks[entry].start - 1 == end {
        FillAfter(blocks, chain, k, start);
        blocks := blocks[entry := blocks[entry].(start := start)];
        return;
      }
      FillBetween(blocks, chain, k, newRef, start);
      InsertNode(before, entry, start, k);
    }

    method InsertNode(before: Ref, after: Ref, start: nat, ghost k: nat)
      requires k < |chain| && chain[k] == after && after in blocks && before == PrevOf(chain, k) &&
        (k > 0 ==> before in blocks && before != 0)
      requires newRef > 0 && (forall r | r in blocks :: r < newRef) && firstBlock == chain[0]
      requires firstBlock == after <==> k == 0
      modifies this`blocks, this`firstBlock, this`newRef, this`chain
      ensures blocks == Inserted(old(blocks), old(chain), k, old(newRef), start)
      ensures chain == old(chain)[..k] + [old(newRef)] + old(chain)[k..] && firstBlock == chain[0]
      ensures newRef > 0 && forall r | r in blocks :: r < newRef
    {
      var r := newRef;
      blocks := blocks[r := FreeBlock(start, start + PAGE - 1, after, before)];
      if before != 0 {
        blocks := blocks[before := blocks[before].(next := r)];
      }
      blocks := blocks[after := blocks[after].(prev := r)];
      if after == firstBlock {
        firstBlock := r;
      }
      chain, newRef := chain[..k] + [r] + chain[k..], newRef + 1;
    }

    /** The lowest virtual page that is not mapped. */
    method GetFreePageIndex() returns (r: nat)
      requires TablesValid()
      ensures r < ENTRIES * ENTRIES || r == PAGER_ERROR
      ensures r < ENTRIES * ENTRIES ==> FrameAt(root, tables, r) == None
      ensures forall v | 0 <= v < ENTRIES * ENTRIES && v < r :: FrameAt(root, tables, v) != None
    {
      for i := 0 to ENTRIES
        invariant forall v | 0 <= v < i * ENTRIES :: FrameAt(root, tables, v) != None
      {
        if !root[i].Present() {
          return i * ENTRIES;
        }
        var table := tables[root[i].frame];
        for j := 0 to ENTRIES
          invariant forall v | 0 <= v < i * ENTRIES + j :: FrameAt(root, tables, v) != None
        {
          if !table[j].Present() {
            return j + i * ENTRIES;
          }
        }
      }
      return PAGER_ERROR;
    }

    /** The physical address, or the error value. */
    method VirtToPhys(address: nat) returns (r: nat)
      requires TablesValid() && address < TOP
      ensures r == match FrameAt(root, tables, address / PAGE)
                   case None => PAGER_ERROR
                   case Some(f) => f * PAGE + address % PAGE
    {
      var offset, pte, pde := address % PAGE, address / PAGE % ENTRIES, address / (PAGE * ENTRIES);
      assert pde == address / PAGE / ENTRIES;
      if !root[pde].Present() {
        return PAGER_ERROR;
      }
      var table := tables[root[pde].frame];
      if !table[pte].Present() {
        return PAGER_ERROR;
      }
      return table[pte].frame * PAGE + offset;
    }

    /** Maps a frame at the lowest free virtual page: the one asked for, rounded up, or the lowest free one.
        One that is asked for need not be free; the state stays valid if and only if its page is `Clean`. */
    method NewPage(address: Option<nat>, flags: bv12) returns (r: nat)
      requires Valid() && (address.Some? ==> address.value < TOP)
      requires var p := StartOf(blocks, firstBlock); Chosen(address, p) == p ==> p + PAGE < TOP
      requires TableRoom() && exists v :: 0 <= v < ENTRIES * ENTRIES && FrameAt(root, tables, v) == None
      modifies this
      ensures r % PAGE == 0 && r / PAGE < ENTRIES * ENTRIES
      ensures var p, v := old(Chosen(address, StartOf(blocks, firstBlock))), r / PAGE;
        && TablesValid() && (Valid() <==> Clean(old(blocks), old(chain), p))
        && (Valid() ==> Emptied(old(blocks), old(chain), blocks, chain, p))
        && old(FrameAt(root, tables, v)) == None && FrameAt(root, tables, v) == Some(p / PAGE)
        && (forall w | 0 <= w < v :: old(FrameAt(root, tables, w)) != None)
        && (forall w | 0 <= w < ENTRIES * ENTRIES && w != v ::
          FrameAt(root, tables, w) == old(FrameAt(root, tables, w)))
      ensures address == None ==> Valid() && LowestFree(old(blocks), old(chain), old(StartOf(blocks, firstBlock)))
      ensures forall w | 0 <= w < ENTRIES * ENTRIES ::
        BitsAt(root, tables, w) ==
          var bits := old(BitsAt(root, tables, w)); if w == r / PAGE then bits | 11 | flags else bits
      ensures root[r / PAGE / ENTRIES].Present()
      ensures tablesEnd == old(tablesEnd) + if old(root[r / PAGE / ENTRIES].Present()) then 0 else 1
      ensures old(LowIdentity()) ==> LowIdentity()
    {
      hide List, Tables, Owned, FrameAt, BitsAt, Emptied;
      FirstBlock(blocks, chain);
      var p := Chosen(address, blocks[firstBlock].start);
      ghost var m, c, before, tablesBefore := blocks, chain, root, tables;
      var f := p / PAGE;
      ChosenPage(blocks, chain, address, f);
      hide Covered, Clean;
      PagerRemove(p);
      var index := GetFreePageIndex();
      MapPage(index, f, flags);
      if Clean(m, c, p) {
        EmptiedFrames(m, c, blocks, chain, f);
        OwnedMap(m, c, before, tablesBefore, reserved, blocks, chain, root, tables, index, f);
      }
      return index * PAGE;
    }

    /** Writes the entry of a page that is not mapped, in a new table if there is none for it. */
    method MapPage(v: nat, f: nat, flags: bv12)
      requires TablesValid() && v < ENTRIES * ENTRIES && FrameAt(root, tables, v) == None
      requires root[v / ENTRIES].Present() || tablesEnd < TABLES_LIMIT
      modifies this`root, this`tables, this`tablesEnd
      ensures TablesValid() && tablesEnd == old(tablesEnd) + if old(root[v / ENTRIES].Present()) then 0 else 1
      ensures forall w | 0 <= w < ENTRIES * ENTRIES ::
        FrameAt(root, tables, w) == if w == v then Some(f) else old(FrameAt(root, tables, w))
      ensures forall w | 0 <= w < ENTRIES * ENTRIES ::
        BitsAt(root, tables, w) == var bits := old(BitsAt(root, tables, w)); if w == v then bits | 11 | flags else bits
      ensures var d, was := root[v / ENTRIES], old(root[v / ENTRIES]);
        d.Present() && d.bits == (if was.Present() then was.bits else was.bits | 11 | flags)
    {
      var pde, pte := v / ENTRIES, v % ENTRIES;
      if !root[pde].Present() {
        var table := tablesEnd;
        tablesEnd := tablesEnd + 1;
        var e := Entry(root[pde].With(flags).bits, table);
        NewTableTranslates(root, tables, pde, table, e);
        tables := tables[table := Blank()];
        root := root[pde := e];
      }
      var table := root[pde].frame;
      var e := Entry(tables[table][pte].bits, f).With(flags);
      PutTranslates(root, tables, v, e);
      tables := tables[table := tables[table][pte := e]];
    }

    /** Unmaps a page, rounding its address up, and frees its frame; a page that is not mapped stays so. */
    method FreePage(address: nat)
      requires Valid() && address < TOP
      modifies this
      ensures Valid()
      ensures var v := (address + PAGE - 1) / PAGE % (ENTRIES * ENTRIES);
        && FrameAt(root, tables, v) == None
        && (forall w | 0 <= w < ENTRIES * ENTRIES && w != v ::
          FrameAt(root, tables, w) == old(FrameAt(root, tables, w)))
        && match old(FrameAt(root, tables, v))
           case None => unchanged(this)
           case Some(f) => Filled(old(blocks), old(chain), blocks, chain, f * PAGE) && root == old(root)
      ensures forall w | 0 <= w < ENTRIES * ENTRIES ::
        BitsAt(root, tables, w) ==
          var bits := old(BitsAt(root, tables, w));
          if w == (address + PAGE - 1) / PAGE % (ENTRIES * ENTRIES) then bits & 0xFFE else bits
      ensures old(LowIdentity()) ==> (LowIdentity() <==>
        (address + PAGE - 1) / PAGE % (ENTRIES * ENTRIES) >= TABLES_LIMIT)
    {
      var v := (address + PAGE - 1) / PAGE % (ENTRIES * ENTRIES);
      RoundedUp(address, v);
      var pte, pde := v % ENTRIES, v / ENTRIES;
      if !root[pde].Present() {
        return;
      }
      var table := root[pde].frame;
      if !tables[table][pte].Present() {
        return;
      }
      ghost var m, c, tablesBefore := blocks, chain, tables;
      ghost var f := tables[table][pte].frame;
      PutTranslates(root, tables, v, tables[table][pte].Absent());
      assert Maps(root, tables, v, f);
      hide List, Tables, Covered, FrameAt;
      var start := VirtToPhys(v * PAGE);
      OnePage(start, f);
      PagerFill(start);
      tables := tables[table := tables[table][pte := tables[table][pte].Absent()]];
      OwnedUnmap(m, c, root, tablesBefore, reserved, blocks, chain, tables, v, f);
    }
  }

  /** The frames as the loop at the start of the kernel leaves them after `i` pages. */
  ghost predicate Started(p: Pager, i: nat)
    reads p
  {
    && p.Valid() && (forall a: nat :: Covered(p.blocks, p.chain, a) <==> i * PAGE <= a < TOP)
    && (forall v | 0 <= v < ENTRIES * ENTRIES :: FrameAt(p.root, p.tables, v) == if v < i then Some(v) else None)
  }

  lemma StartsAt(p: Pager, i: nat)
    requires Started(p, i) && i < TABLES_LIMIT && p.tablesEnd < TABLES_LIMIT
    ensures StartOf(p.blocks, p.firstBlock) == i * PAGE && LowestUnmapped(p.root, p.tables, i) && p.TableRoom()
    ensures i > 0 ==> p.root[0].Present()
  {
    Lowest(p.blocks, p.chain);
    var start := p.blocks[p.chain[0]].start;
    assert Covered(p.blocks, p.chain, i * PAGE);
    assert i > 0 ==> FrameAt(p.root, p.tables, 0) == Some(0);
  }

  /** The kernel maps its first pages: page by page they go to the frames of the same number, tables included. */
  method StartKernel() returns (p: Pager)
    ensures fresh(p) && Started(p, TABLES_LIMIT) && p.LowIdentity() && p.tablesEnd == TABLES_BASE + 2
  {
    p := new Pager();
    var r := StartPage(p, 0);
    ghost var i := 1;
    while r < TABLES_LIMIT * PAGE - PAGE
      invariant fresh(p) && 0 < i <= TABLES_LIMIT && r == i * PAGE - PAGE
      invariant Started(p, i) && p.tablesEnd == TABLES_BASE + 2
      decreases TABLES_LIMIT - i
    {
      r := StartPage(p, i);
      i := i + 1;
    }
  }

  method StartPage(p: Pager, ghost i: nat) returns (r: nat)
    requires Started(p, i) && i < TABLES_LIMIT && p.tablesEnd == TABLES_BASE + if i == 0 then 1 else 2
    modifies p
    ensures Started(p, i + 1) && p.tablesEnd == TABLES_BASE + 2 && r == i * PAGE
  {
    StartsAt(p, i);
    hide Covered, FrameAt, Owned, List, Tables;
    r := p.NewPage(None, 0x100);
  }

  lemma FlagsJoin(bits: bv12, flags: bv12, flags': bv12)
    ensures ((bits | 11 | flags) & 0xFFE) | 11 | flags' == bits | 11 | flags | flags'
  {
  }

  /** The address of a page is not rounded. */
  lemma PageAddress(v: nat)
    requires v < ENTRIES * ENTRIES
    ensures (v * PAGE + PAGE - 1) / PAGE % (ENTRIES * ENTRIES) == v && v * PAGE < TOP
  {
  }

  /** A list that has lost its first page and gained it again begins where it did. */
  lemma SameStart(m: map<Ref, FreeBlock>, c: seq<Ref>, l: map<Ref, FreeBlock>, b: seq<Ref>, n: map<Ref, FreeBlock>,
      d: seq<Ref>, p: nat)
    requires List(m, c) && c[0] in m && p == m[c[0]].start && Emptied(m, c, l, b, p) && Filled(l, b, n, d, p)
    ensures d[0] in n && n[d[0]].start == p
  {
    Lowest(m, c);
    Lowest(n, d);
    hide List, Covered;
    forall a: nat | p <= a < p + PAGE ensures Covered(m, c, a) { WholePages(m, c, p, a); }
    assert forall a: nat :: Covered(n, d, a) <==> Covered(m, c, a);
    assert Covered(n, d, p) && Covered(m, c, n[d[0]].start);
  }

  /** What is unmapped again is the lowest page again, with a table. */
  lemma RoomAgain(p: Pager, v: nat)
    requires p.TablesValid() && v < ENTRIES * ENTRIES && LowestUnmapped(p.root, p.tables, v)
    requires p.root[v / ENTRIES].Present()
    ensures p.TableRoom()
  {
    hide FrameAt;
    forall w | 0 <= w < ENTRIES * ENTRIES && LowestUnmapped(p.root, p.tables, w) ensures w == v {
    }
  }

  /** Freeing a page clears no flag but the first, so the next page in its place has the flags of both. */
  method FlagsStay(p: Pager, flags: bv12, flags': bv12) returns (first: nat, second: nat)
    requires p.Valid() && StartOf(p.blocks, p.firstBlock) + PAGE < TOP && p.TableRoom()
    requires exists v :: 0 <= v < ENTRIES * ENTRIES && FrameAt(p.root, p.tables, v) == None
    modifies p
    ensures p.Valid() && second == first && first % PAGE == 0 && first / PAGE < ENTRIES * ENTRIES
    ensures FrameAt(p.root, p.tables, first / PAGE) == Some(old(StartOf(p.blocks, p.firstBlock)) / PAGE)
    ensures BitsAt(p.root, p.tables, first / PAGE) ==
      old(BitsAt(p.root, p.tables, first / PAGE)) | 11 | flags | flags'
  {
    hide List, Tables, Owned, FrameAt, BitsAt, Covered, Node, Clean;
    ghost var m, c := p.blocks, p.chain;
    Lowest(m, c);
    first := p.NewPage(None, flags);
    ghost var v, l, b := first / PAGE, p.blocks, p.chain;
    PageAddress(v);
    p.FreePage(first);
    SameStart(m, c, l, b, p.blocks, p.chain, m[c[0]].start);
    RoomAgain(p, v);
    FlagsJoin(old(BitsAt(p.root, p.tables, v)), flags, flags');
    second := p.NewPage(None, flags');
  }

  /** The list without a page, frame by frame. */
  lemma EmptiedFrames(m: map<Ref, FreeBlock>, c: seq<Ref>, n: map<Ref, FreeBlock>, d: seq<Ref>, f: nat)
    requires Emptied(m, c, n, d, f * PAGE)
    ensures forall g: nat :: Covered(n, d, g * PAGE) <==> Covered(m, c, g * PAGE) && g != f
  {
    OnePage(f * PAGE, f);
  }

  ghost predicate LowestFree(m: map<Ref, FreeBlock>, c: seq<Ref>, p: nat) {
    Covered(m, c, p) && forall a: nat | a < p :: !Covered(m, c, a)
  }

  lemma ChosenPage(m: map<Ref, FreeBlock>, c: seq<Ref>, address: Option<nat>, f: nat)
    requires List(m, c) && c[0] in m && f == Chosen(address, m[c[0]].start) / PAGE
    ensures var p := Chosen(address, m[c[0]].start);
      && p == f * PAGE && Aligned(p) && p + PAGE <= TOP && (Clean(m, c, p) ==> Covered(m, c, p))
    ensures address == None && m[c[0]].start + PAGE < TOP ==> Clean(m, c, f * PAGE) && LowestFree(m, c, f * PAGE)
  {
    hide Chosen, Aligned;
    NodeOf(m, c, 0);
    Lowest(m, c);
    ChosenPlace(address, m[c[0]].start);
    var p := Chosen(address, m[c[0]].start);
    if Clean(m, c, p) { assert In(m, c[0], p); }
  }

  lemma ChosenPlace(address: Option<nat>, lowest: nat)
    requires Aligned(lowest) && lowest < TOP
    ensures var p := Chosen(address, lowest);
      Aligned(p) && p + PAGE <= TOP && p == p / PAGE * PAGE && (address == None ==> p == lowest)
  {
    if address.Some? {
      var q := (address.value + PAGE - 1) / PAGE;
      var k := q * PAGE / TOP;
      assert Chosen(address, lowest) == PAGE * (q - TOP / PAGE * k);
    }
  }

  lemma RoundedUp(address: nat, v: nat)
    requires address < TOP && v == (address + PAGE - 1) / PAGE % (ENTRIES * ENTRIES)
    ensures v < ENTRIES * ENTRIES && v * PAGE < TOP && v * PAGE / PAGE == v && v * PAGE % PAGE == 0
  {
  }

  /** The list is sorted: its first address is the lowest free one. */
  lemma Lowest(m: map<Ref, FreeBlock>, c: seq<Ref>)
    requires List(m, c)
    ensures c[0] in m && Covered(m, c, m[c[0]].start) && Aligned(m[c[0]].start) && m[c[0]].start < TOP
    ensures forall a | 0 <= a < m[c[0]].start :: !Covered(m, c, a)
  {
    NodeOf(m, c, 0);
    if |c| > 1 {
      Sorted(m, c, 0, |c| - 1);
      NodeOf(m, c, |c| - 1);
    }
    assert In(m, c[0], m[c[0]].start);
    forall a | 0 <= a < m[c[0]].start ensures !Covered(m, c, a) {
      forall i | 0 <= i < |c| ensures !In(m, c[i], a) {
        if i > 0 { Sorted(m, c, 0, i); }
      }
    }
  }

  /** Pages that an address range of one page does and does not touch. */
  lemma OnePage(p: nat, f: nat)
    requires p == f * PAGE
    ensures Aligned(p) && forall g: nat :: (p <= g * PAGE < p + PAGE <==> g == f)
  {
  }

  /** The first block and the one behind it. */
  lemma FirstBlock(m: map<Ref, FreeBlock>, c: seq<Ref>)
    requires List(m, c)
    ensures c[0] in m && m[c[0]].prev == 0 && (|c| > 1 ==> m[c[0]].next == c[1] && c[1] in m)
    ensures |c| == 1 ==> m[c[0]].end == TOP - 1
  {
    NodeOf(m, c, 0);
  }

  /** The last block reaches the top, so the search for a page that is not free ends in the list. */
  lemma LastEnds(m: map<Ref, FreeBlock>, c: seq<Ref>, p: nat)
    requires List(m, c) && p < TOP && !Covered(m, c, p)
    ensures forall i | 0 <= i < |c| :: c[i] in m
    ensures c[|c| - 1] in m && m[c[|c| - 1]].start > p
  {
    forall i | 0 <= i < |c| ensures c[i] in m {
      NodeOf(m, c, i);
    }
    NodeOf(m, c, |c| - 1);
    assert !In(m, c[|c| - 1], p);
  }
}