/**
 The block map of the file system: a file's thirteen inode pointers, the pointer blocks
 they lead to on the disk, and bump allocation.  A `Slot` names one place that can hold a
 block pointer; `Ptr` is what that place holds.  `Inv` says that no block is held in two
 places, over all files.
 */
module BlockMap {
  import opened Blocks

  const NUM_DIRECT := 10
  const SINGLE := 10
  const DOUBLE := 11
  const TRIPLE := 12
  // block numbers are multiplied by 1024 in 32 bits, so they count modulo 2^22
  const DISK_BLOCKS := 0x40_0000
  const SUPER_BLOCK := 64
  // the packer puts the first file block here; everything below is metadata
  const FIRST_BLOCK := 1089
  // first block number that would need a triple-indirect pointer
  const MAX_BLOCKS := 65802

  type Disk = d: seq<Block> | |d| == DISK_BLOCKS witness seq<Block>(DISK_BLOCKS, i => ZeroBlock())
  type Table = t: seq<Word> | |t| == 13 witness seq(13, i => 0)

  /** The disk and the superblock's block counter. */
  datatype Vol = Vol(disk: Disk, nBlocks: nat)

  /** A volume and the inode pointers of every file on it. */
  datatype FS = FS(vol: Vol, tables: map<nat, Table>)

  datatype Slot = Root(k: nat) | Child(parent: Slot, j: nat)

  predicate IsTable(s: Slot) {
    match s
    case Root(k) => k == SINGLE || k == DOUBLE
    case Child(p, j) => p == Root(DOUBLE) && j < PTRS_PER_BLOCK
  }

  predicate IsSlot(s: Slot) {
    match s
    case Root(k) => k <= DOUBLE
    case Child(p, j) => IsTable(p) && j < PTRS_PER_BLOCK
  }

  predicate IsLeaf(s: Slot) { IsSlot(s) && !IsTable(s) }

  /** The slot of a file's logical block `n`. */
  function LeafSlot(n: nat): (s: Slot)
    requires n < MAX_BLOCKS
    ensures IsLeaf(s)
  {
    if n < NUM_DIRECT then Root(n)
    else if n < NUM_DIRECT + PTRS_PER_BLOCK then Child(Root(SINGLE), n - NUM_DIRECT)
    else
      var i := n - NUM_DIRECT - PTRS_PER_BLOCK;
      Child(Child(Root(DOUBLE), i / PTRS_PER_BLOCK), i % PTRS_PER_BLOCK)
  }

  lemma LeafSlotInjective(m: nat, n: nat)
    requires m < MAX_BLOCKS && n < MAX_BLOCKS && LeafSlot(m) == LeafSlot(n)
    ensures m == n
  {
  }

  function Addr(b: Word): nat { b % DISK_BLOCKS }

  /** The pointer held in a slot; 0 stands for "none". */
  function Ptr(d: Disk, t: Table, s: Slot): Word
    requires IsSlot(s)
    decreases s
  {
    match s
    case Root(k) => t[k]
    case Child(p, j) =>
      var q := Ptr(d, t, p);
      if q == 0 then 0 else WordAt(d[Addr(q)], j)
  }

  ghost predicate InRange(fs: FS, f: nat, s: Slot)
    requires f in fs.tables && IsSlot(s)
  {
    Ptr(fs.vol.disk, fs.tables[f], s) == 0 || FIRST_BLOCK <= Ptr(fs.vol.disk, fs.tables[f], s) < fs.vol.nBlocks
  }

  ghost predicate Apart(fs: FS, f: nat, s: Slot, g: nat, u: Slot)
    requires f in fs.tables && g in fs.tables && IsSlot(s) && IsSlot(u)
  {
    Ptr(fs.vol.disk, fs.tables[f], s) == Ptr(fs.vol.disk, fs.tables[g], u) ==>
      Ptr(fs.vol.disk, fs.tables[f], s) == 0 || (f == g && s == u)
  }

  /** No block is reachable in two ways, reachable blocks lie between the metadata and the
      bump pointer, blocks not yet handed out are zero, and the on-disk counter is current. */
  ghost predicate Inv(fs: FS) {
    && FIRST_BLOCK <= fs.vol.nBlocks <= DISK_BLOCKS
    && WordAt(fs.vol.disk[SUPER_BLOCK], 2) == fs.vol.nBlocks
    && (forall b | fs.vol.nBlocks <= b < DISK_BLOCKS :: fs.vol.disk[b] == ZeroBlock())
    && (forall f, s | f in fs.tables && IsSlot(s) :: InRange(fs, f, s))
    && (forall f, s, g, u | f in fs.tables && g in fs.tables && IsSlot(s) && IsSlot(u) :: Apart(fs, f, s, g, u))
  }

  lemma RangeOf(fs: FS, f: nat, s: Slot)
    requires Inv(fs) && f in fs.tables && IsSlot(s)
    ensures var p := Ptr(fs.vol.disk, fs.tables[f], s); p == 0 || FIRST_BLOCK <= p < fs.vol.nBlocks <= DISK_BLOCKS
  {
    assert InRange(fs, f, s);
  }

  lemma ApartOf(fs: FS, f: nat, s: Slot, g: nat, u: Slot)
    requires Inv(fs) && f in fs.tables && g in fs.tables && IsSlot(s) && IsSlot(u)
    ensures Apart(fs, f, s, g, u)
  {
  }

  /** What a leaf slot stores: the data block, if one was ever allocated. */
  function Data(d: Disk, t: Table, s: Slot): (b: seq<Byte>)
    requires IsSlot(s)
  {
    var p := Ptr(d, t, s);
    if p == 0 then [] else d[Addr(p)]
  }

  // ---------- allocating ----------

  /** Takes the next block for an empty slot whose parent table exists. */
  function Grow(v: Vol, t: Table, s: Slot): (Vol, Table)
    requires IsSlot(s) && v.nBlocks < DISK_BLOCKS
  {
    var d := v.disk[SUPER_BLOCK := PutWord(v.disk[SUPER_BLOCK], 2, v.nBlocks + 1)];
    match s
    case Root(k) => (Vol(d, v.nBlocks + 1), t[k := v.nBlocks])
    case Child(p, j) =>
      var q := Addr(Ptr(v.disk, t, p));
      (Vol(d[q := PutWord(d[q], j, v.nBlocks)], v.nBlocks + 1), t)
  }

  function GrowFS(fs: FS, f: nat, s: Slot): FS
    requires f in fs.tables && IsSlot(s) && fs.vol.nBlocks < DISK_BLOCKS
  {
    var (v, t) := Grow(fs.vol, fs.tables[f], s);
    FS(v, fs.tables[f := t])
  }

  ghost predicate CanGrow(fs: FS, f: nat, s: Slot) {
    && Inv(fs) && fs.vol.nBlocks < DISK_BLOCKS
    && f in fs.tables && IsSlot(s) && Ptr(fs.vol.disk, fs.tables[f], s) == 0
    && (s.Child? ==> Ptr(fs.vol.disk, fs.tables[f], s.parent) != 0)
  }

  /** `p` of table `tg` points at neither the fresh block nor, unless it is that very slot,
      the pointer block that growing `s` of `t` rewrites. */
  ghost predicate Clear(v: Vol, t: Table, s: Slot, tg: Table, same: bool, p: Slot)
    requires IsSlot(s) && IsSlot(p)
  {
    && (Ptr(v.disk, tg, p) == 0 || FIRST_BLOCK <= Ptr(v.disk, tg, p) < v.nBlocks)
    && (s.Child? && Ptr(v.disk, tg, p) == Ptr(v.disk, t, s.parent) ==> same && p == s.parent)
  }

  lemma {:induction false} GrowPtrIn(v: Vol, t: Table, s: Slot, tg: Table, same: bool, u: Slot)
    requires FIRST_BLOCK <= v.nBlocks < DISK_BLOCKS && v.disk[v.nBlocks] == ZeroBlock()
    requires IsSlot(s) && IsSlot(u) && (same ==> t == tg) && Ptr(v.disk, t, s) == 0
    requires s.Child? ==> FIRST_BLOCK <= Ptr(v.disk, t, s.parent) < v.nBlocks
    requires forall p | IsSlot(p) :: Clear(v, t, s, tg, same, p)
    ensures var (v', t') := Grow(v, t, s);
      Ptr(v'.disk, if same then t' else tg, u) ==
        if same && s == u then v.nBlocks else Ptr(v.disk, tg, u)
    decreases u
  {
    hide WordAt, PutWord, ZeroBlock;
    var (v', t') := Grow(v, t, s);
    var tg' := if same then t' else tg;
    match u
    case Root(k) =>
    case Child(p, j) =>
      GrowPtrIn(v, t, s, tg, same, p);
      assert Clear(v, t, s, tg, same, p);
      var x := Ptr(v.disk, tg, p);
      if same && s == p {
        assert Ptr(v'.disk, tg', u) == WordAt(v'.disk[v.nBlocks], j) == 0;
      } else if x != 0 {
        assert Ptr(v'.disk, tg', u) == WordAt(v'.disk[x], j);
        if s.Child? && x == Ptr(v.disk, t, s.parent) {
          assert v'.disk[x] == PutWord(v.disk[x], s.j, v.nBlocks);
        } else {
          assert v'.disk[x] == v.disk[x];
        }
      }
  }

  lemma FreshIs(fs: FS)
    requires Inv(fs)
    ensures FIRST_BLOCK <= fs.vol.nBlocks <= DISK_BLOCKS
    ensures fs.vol.nBlocks < DISK_BLOCKS ==> fs.vol.disk[fs.vol.nBlocks] == ZeroBlock()
  {
  }

  /** Growing one slot changes that pointer and no other, in any file. */
  lemma {:induction false} GrowPtr(fs: FS, f: nat, s: Slot, g: nat, u: Slot)
    requires CanGrow(fs, f, s) && g in fs.tables && IsSlot(u)
    ensures var fs' := GrowFS(fs, f, s);
      Ptr(fs'.vol.disk, fs'.tables[g], u) ==
        if f == g && s == u then fs.vol.nBlocks else Ptr(fs.vol.disk, fs.tables[g], u)
  {
    hide Inv, Ptr, Grow, WordAt, PutWord, ZeroBlock;
    forall p | IsSlot(p) ensures Clear(fs.vol, fs.tables[f], s, fs.tables[g], f == g, p) {
      RangeOf(fs, g, p);
      if s.Child? { ApartOf(fs, f, s.parent, g, p); }
    }
    if s.Child? { RangeOf(fs, f, s.parent); }
    FreshIs(fs);
    GrowPtrIn(fs.vol, fs.tables[f], s, fs.tables[g], f == g, u);
  }

  /** Growing writes the superblock and at most one pointer block. */
  lemma GrowDisk(v: Vol, t: Table, s: Slot, x: nat)
    requires IsSlot(s) && v.nBlocks < DISK_BLOCKS && x < DISK_BLOCKS && x != SUPER_BLOCK
    requires s.Child? ==> x != Addr(Ptr(v.disk, t, s.parent))
    ensures Grow(v, t, s).0.disk[x] == v.disk[x]
  {
    hide WordAt, PutWord, ZeroBlock;
  }

  /** ... and so no data block of any file. */
  lemma {:induction false} GrowKeepsData(fs: FS, f: nat, s: Slot, g: nat, u: Slot)
    requires CanGrow(fs, f, s) && g in fs.tables && IsLeaf(u) && (f != g || s != u)
    ensures var fs' := GrowFS(fs, f, s);
      Data(fs'.vol.disk, fs'.tables[g], u) == Data(fs.vol.disk, fs.tables[g], u)
  {
    hide Grow, Ptr, WordAt, PutWord, ZeroBlock, Inv, InRange;
    GrowPtr(fs, f, s, g, u);
    RangeOf(fs, g, u);
    if s.Child? {
      RangeOf(fs, f, s.parent);
      ApartOf(fs, f, s.parent, g, u);
      assert IsTable(s.parent);
    }
    var p := Ptr(fs.vol.disk, fs.tables[g], u);
    if p != 0 {
      GrowDisk(fs.vol, fs.tables[f], s, p);
    }
  }

  lemma {:induction false} GrowInv(fs: FS, f: nat, s: Slot)
    requires CanGrow(fs, f, s)
    ensures Inv(GrowFS(fs, f, s))
  {
    hide WordAt, PutWord, ZeroBlock;
    var fs' := GrowFS(fs, f, s);
    if s.Child? { assert InRange(fs, f, s.parent); }
    forall g, u | g in fs'.tables && IsSlot(u) ensures InRange(fs', g, u) {
      GrowPtr(fs, f, s, g, u);
      assert InRange(fs, g, u);
    }
    forall g, u, h, w | g in fs'.tables && h in fs'.tables && IsSlot(u) && IsSlot(w)
      ensures Apart(fs', g, u, h, w)
    {
      GrowPtr(fs, f, s, g, u);
      GrowPtr(fs, f, s, h, w);
      assert Apart(fs, g, u, h, w) && InRange(fs, g, u) && InRange(fs, h, w);
    }
  }

  // ---------- filling the path of a slot ----------

  function Depth(s: Slot): nat {
    match s
    case Root(_) => 1
    case Child(p, _) => 1 + Depth(p)
  }

  lemma SlotDepth(s: Slot)
    requires IsSlot(s)
    ensures Depth(s) <= 3
  {
    if s.Child? && s.parent.Child? {
      assert s.parent.parent == Root(DOUBLE) && Depth(s.parent.parent) == 1;
    }
  }

  /** Allocates whatever is missing on the way to a slot, tables before what they point at. */
  function EnsureSlot(v: Vol, t: Table, s: Slot): (r: (Vol, Table))
    requires IsSlot(s) && v.nBlocks + Depth(s) <= DISK_BLOCKS
    ensures v.nBlocks <= r.0.nBlocks <= v.nBlocks + Depth(s)
    decreases s
  {
    match s
    case Root(_) => if Ptr(v.disk, t, s) == 0 then Grow(v, t, s) else (v, t)
    case Child(p, _) =>
      var (v1, t1) := EnsureSlot(v, t, p);
      if Ptr(v1.disk, t1, s) == 0 then Grow(v1, t1, s) else (v1, t1)
  }

  predicate OnPath(u: Slot, s: Slot) { u == s || (s.Child? && OnPath(u, s.parent)) }

  /** `fs1` differs from `fs0` only in empty slots on the way to `s` of file `f`, and holds
      the same data everywhere else. */
  ghost predicate Extends(fs0: FS, fs1: FS, f: nat, s: Slot) {
    && fs1.tables.Keys == fs0.tables.Keys
    && (forall g, u | g in fs0.tables && IsSlot(u) ::
      SamePtr(fs0, fs1, g, u) || (Empty(fs0, g, u) && g == f && OnPath(u, s)))
    && (forall g, u | g in fs0.tables && IsLeaf(u) && (g != f || u != s || !Empty(fs0, g, u)) ::
      SameData(fs0, fs1, g, u))
  }

  ghost predicate Empty(fs: FS, g: nat, u: Slot)
    requires g in fs.tables && IsSlot(u)
  {
    Ptr(fs.vol.disk, fs.tables[g], u) == 0
  }

  ghost predicate SamePtr(fs0: FS, fs1: FS, g: nat, u: Slot)
    requires g in fs0.tables && g in fs1.tables && IsSlot(u)
  {
    Ptr(fs1.vol.disk, fs1.tables[g], u) == Ptr(fs0.vol.disk, fs0.tables[g], u)
  }

  ghost predicate SameData(fs0: FS, fs1: FS, g: nat, u: Slot)
    requires g in fs0.tables && g in fs1.tables && IsSlot(u)
  {
    Data(fs1.vol.disk, fs1.tables[g], u) == Data(fs0.vol.disk, fs0.tables[g], u)
  }

  lemma {:induction false} GrowExtends(fs: FS, f: nat, s: Slot)
    requires CanGrow(fs, f, s)
    ensures Extends(fs, GrowFS(fs, f, s), f, s)
    ensures !Empty(GrowFS(fs, f, s), f, s)
  {
    hide Grow, Ptr, Data, WordAt, PutWord, ZeroBlock;
    var fs' := GrowFS(fs, f, s);
    assert fs'.tables.Keys == fs.tables.Keys;
    GrowPtr(fs, f, s, f, s);
    forall g, u | g in fs.tables && IsSlot(u)
      ensures SamePtr(fs, fs', g, u) || (Empty(fs, g, u) && g == f && OnPath(u, s))
    {
      GrowPtr(fs, f, s, g, u);
    }
    forall g, u | g in fs.tables && IsLeaf(u) && (g != f || u != s || !Empty(fs, g, u))
      ensures SameData(fs, fs', g, u)
    {
      GrowKeepsData(fs, f, s, g, u);
    }
  }

  function EnsureFS(fs: FS, f: nat, s: Slot): FS
    requires f in fs.tables && IsSlot(s) && fs.vol.nBlocks + Depth(s) <= DISK_BLOCKS
  {
    var (v, t) := EnsureSlot(fs.vol, fs.tables[f], s);
    FS(v, fs.tables[f := t])
  }

  /** Filling a path keeps the invariant and disturbs nothing off that path. */
  lemma {:induction false} EnsureOk(fs: FS, f: nat, s: Slot)
    requires Inv(fs) && f in fs.tables && IsSlot(s) && fs.vol.nBlocks + Depth(s) <= DISK_BLOCKS
    ensures var fs' := EnsureFS(fs, f, s);
      Inv(fs') && Extends(fs, fs', f, s) && !Empty(fs', f, s)
    decreases s
  {
    hide Grow, Data, WordAt, PutWord, ZeroBlock, InRange, Apart;
    var fs1 := if s.Child? then EnsureFS(fs, f, s.parent) else fs;
    if s.Child? {
      EnsureOk(fs, f, s.parent);
    } else {
      assert fs.tables[f := fs.tables[f]] == fs.tables;
    }
    var fs2 := EnsureFS(fs, f, s);
    if Empty(fs1, f, s) {
      GrowExtends(fs1, f, s);
      GrowInv(fs1, f, s);
      assert fs2 == GrowFS(fs1, f, s);
    } else {
      assert fs2.tables == fs1.tables;
    }
  }

  // ---------- writing data blocks ----------

  /** Puts data in the block that a slot points at. */
  function Store(v: Vol, t: Table, s: Slot, data: Block): Vol
    requires IsSlot(s)
  {
    v.(disk := v.disk[Addr(Ptr(v.disk, t, s)) := data])
  }

  ghost predicate SameFile(fs0: FS, fs1: FS, f: nat, s: Slot) {
    && fs1.tables == fs0.tables && fs1.vol.nBlocks == fs0.vol.nBlocks
    && (forall g, u | g in fs0.tables && IsSlot(u) :: SamePtr(fs0, fs1, g, u))
    && (forall g, u | g in fs0.tables && IsLeaf(u) && (g != f || u != s) :: SameData(fs0, fs1, g, u))
  }

  ghost predicate CanStore(fs: FS, f: nat, s: Slot) {
    Inv(fs) && f in fs.tables && IsLeaf(s) && !Empty(fs, f, s)
  }

  lemma {:induction false} StorePtr(fs: FS, f: nat, s: Slot, data: Block, g: nat, u: Slot)
    requires CanStore(fs, f, s) && g in fs.tables && IsSlot(u)
    ensures SamePtr(fs, fs.(vol := Store(fs.vol, fs.tables[f], s, data)), g, u)
    decreases u
  {
    hide Data, WordAt, PutWord, ZeroBlock, Inv, InRange;
    if u.Child? {
      StorePtr(fs, f, s, data, g, u.parent);
      ApartOf(fs, f, s, g, u.parent);
      RangeOf(fs, f, s);
      RangeOf(fs, g, u.parent);
      var x, y := Ptr(fs.vol.disk, fs.tables[g], u.parent), Ptr(fs.vol.disk, fs.tables[f], s);
      assert 0 < y < DISK_BLOCKS && x < DISK_BLOCKS && x != y;
      hide Inv, CanStore, Apart, InRange;
      assert x != 0 ==> fs.vol.disk[y := data][x] == fs.vol.disk[x];
    }
  }

  /** ... and so no other data. */
  lemma StoreData(fs: FS, f: nat, s: Slot, data: Block, g: nat, u: Slot)
    requires CanStore(fs, f, s) && g in fs.tables && IsLeaf(u)
    ensures var d := Store(fs.vol, fs.tables[f], s, data).disk;
      Data(d, fs.tables[g], u) == if g == f && u == s then data else Data(fs.vol.disk, fs.tables[g], u)
  {
    hide Ptr, Inv, WordAt, PutWord, ZeroBlock;
    StorePtr(fs, f, s, data, g, u);
    RangeOf(fs, f, s);
    RangeOf(fs, g, u);
    ApartOf(fs, f, s, g, u);
  }

  /** Free blocks and metadata lie elsewhere. */
  lemma StoreElsewhere(fs: FS, f: nat, s: Slot, data: Block)
    requires CanStore(fs, f, s)
    ensures var d := Store(fs.vol, fs.tables[f], s, data).disk;
      d[SUPER_BLOCK] == fs.vol.disk[SUPER_BLOCK] &&
        forall b | fs.vol.nBlocks <= b < DISK_BLOCKS :: d[b] == fs.vol.disk[b]
  {
    hide Ptr, Inv, WordAt, PutWord, ZeroBlock;
    RangeOf(fs, f, s);
  }

  /** A data block can be overwritten without touching any pointer or any other data. */
  lemma {:induction false} StoreOk(fs: FS, f: nat, s: Slot, data: Block)
    requires CanStore(fs, f, s)
    ensures var fs' := fs.(vol := Store(fs.vol, fs.tables[f], s, data));
      Inv(fs') && SameFile(fs, fs', f, s) && Data(fs'.vol.disk, fs'.tables[f], s) == data
  {
    StoreElsewhere(fs, f, s, data);
    hide Ptr, Data, WordAt, PutWord, ZeroBlock;
    var fs' := fs.(vol := Store(fs.vol, fs.tables[f], s, data));
    StoreData(fs, f, s, data, f, s);
    forall g, u | g in fs.tables && IsSlot(u) ensures SamePtr(fs, fs', g, u) && InRange(fs', g, u) {
      StorePtr(fs, f, s, data, g, u);
      assert InRange(fs, g, u);
    }
    forall g, u | g in fs.tables && IsLeaf(u) && (g != f || u != s) ensures SameData(fs, fs', g, u) {
      StoreData(fs, f, s, data, g, u);
    }
    forall g, u, h, w | g in fs'.tables && h in fs'.tables && IsSlot(u) && IsSlot(w)
      ensures Apart(fs', g, u, h, w)
    {
      assert SamePtr(fs, fs', g, u) && SamePtr(fs, fs', h, w);
      ApartOf(fs, g, u, h, w);
    }
  }

  /** One iteration of the write loop on logical block `n`; `false` means it stopped. */
  function WriteOne(v: Vol, t: Table, n: nat, data: Block): (r: (Vol, Table, bool))
    requires v.nBlocks + 3 <= DISK_BLOCKS
    ensures v.nBlocks <= r.0.nBlocks <= v.nBlocks + 3
  {
    if n >= MAX_BLOCKS then (v, t, false)
    else
      var s := LeafSlot(n);
      SlotDepth(s);
      var (v1, t1) := EnsureSlot(v, t, s);
      var p := Ptr(v1.disk, t1, s);
      if p == 0 || p == 0xFFFF_FFFF then (v1, t1, false) else (Store(v1, t1, s, data), t1, true)
  }

  function WriteOneFS(fs: FS, f: nat, n: nat, data: Block): FS
    requires f in fs.tables && fs.vol.nBlocks + 3 <= DISK_BLOCKS
  {
    var (v, t, _) := WriteOne(fs.vol, fs.tables[f], n, data);
    FS(v, fs.tables[f := t])
  }

  /** The stored contents of logical block `n` of file `f`, empty if there are none. */
  function Content(fs: FS, f: nat, n: nat): seq<Byte>
    requires f in fs.tables && n < MAX_BLOCKS
  {
    Data(fs.vol.disk, fs.tables[f], LeafSlot(n))
  }

  /** Every block of every file but block `n` of `f` is as it was. */
  ghost predicate OthersKept(fs0: FS, fs1: FS, f: nat, n: nat) {
    && fs1.tables.Keys == fs0.tables.Keys
    && forall g, m: nat | g in fs0.tables && m < MAX_BLOCKS && (g != f || m != n) ::
        Content(fs1, g, m) == Content(fs0, g, m)
  }

  /** Writing one logical block makes it hold the data and leaves every other block alone. */
  lemma {:induction false} WriteOneOk(fs: FS, f: nat, n: nat, data: Block)
    requires Inv(fs) && f in fs.tables && n < MAX_BLOCKS && fs.vol.nBlocks + 3 <= DISK_BLOCKS
    ensures WriteOne(fs.vol, fs.tables[f], n, data).2
    ensures var fs' := WriteOneFS(fs, f, n, data);
      Inv(fs') && Content(fs', f, n) == data && OthersKept(fs, fs', f, n)
  {
    hide Ptr, Data, EnsureSlot, WordAt, PutWord, ZeroBlock, LeafSlot, Store;
    var s := LeafSlot(n);
    SlotDepth(s);
    EnsureOk(fs, f, s);
    var fs1 := EnsureFS(fs, f, s);
    assert InRange(fs1, f, s);
    StoreOk(fs1, f, s, data);
    var fs' := WriteOneFS(fs, f, n, data);
    assert fs' == fs1.(vol := Store(fs1.vol, fs1.tables[f], s, data));
    forall g, m: nat | g in fs.tables && m < MAX_BLOCKS && (g != f || m != n)
      ensures Content(fs', g, m) == Content(fs, g, m)
    {
      if m != n && LeafSlot(m) == s { LeafSlotInjective(m, n); }
      assert SameData(fs, fs1, g, LeafSlot(m)) && SameData(fs1, fs', g, LeafSlot(m));
    }
  }

  // ---------- whole buffers and whole runs ----------

  /** Logical block that iteration `i` of either loop works on, in 32-bit arithmetic. */
  function BlockNumber(pos: Word, i: nat): nat { (pos + i * BLOCK_SIZE) % 0x1_0000_0000 / BLOCK_SIZE }

  function Chunk(buf: seq<Byte>, i: nat): Block
    requires (i + 1) * BLOCK_SIZE <= |buf|
  {
    buf[i * BLOCK_SIZE..(i + 1) * BLOCK_SIZE]
  }

  /** The write loop from iteration `i` on. */
  function WriteFrom(v: Vol, t: Table, buf: seq<Byte>, pos: Word, i: nat, num: nat): (r: (Vol, Table))
    requires i <= num && num * BLOCK_SIZE <= |buf| && v.nBlocks + 3 * (num - i) <= DISK_BLOCKS
    ensures r.0.nBlocks <= v.nBlocks + 3 * (num - i)
    decreases num - i
  {
    if i == num then (v, t)
    else
      var (v1, t1, ok) := WriteOne(v, t, BlockNumber(pos, i), Chunk(buf, i));
      if ok then WriteFrom(v1, t1, buf, pos, i + 1, num) else (v1, t1)
  }

  function WriteFS(fs: FS, f: nat, buf: seq<Byte>, pos: Word, i: nat, num: nat): FS
    requires f in fs.tables
    requires i <= num && num * BLOCK_SIZE <= |buf| && fs.vol.nBlocks + 3 * (num - i) <= DISK_BLOCKS
  {
    var (v, t) := WriteFrom(fs.vol, fs.tables[f], buf, pos, i, num);
    FS(v, fs.tables[f := t])
  }

  /** A write of `num` blocks at byte position `pos` stays within the double-indirect range. */
  predicate Fits(pos: Word, num: nat) { pos / BLOCK_SIZE + num <= MAX_BLOCKS }

  lemma BlockNumberIs(pos: Word, i: nat, num: nat)
    requires i < num && Fits(pos, num)
    ensures BlockNumber(pos, i) == pos / BLOCK_SIZE + i < MAX_BLOCKS
  {
    assert pos + i * BLOCK_SIZE == (pos / BLOCK_SIZE + i) * BLOCK_SIZE + pos % BLOCK_SIZE;
  }

  /** After writing iterations `i..num`, block `m` of file `g` holds what the buffer says. */
  ghost predicate Written(fs0: FS, fs1: FS, f: nat, buf: seq<Byte>, lo: nat, i: nat, num: nat, g: nat, m: nat)
    requires g in fs0.tables && g in fs1.tables && m < MAX_BLOCKS && num * BLOCK_SIZE <= |buf|
  {
    Content(fs1, g, m) ==
      if g == f && lo + i <= m < lo + num then Chunk(buf, m - lo) else Content(fs0, g, m)
  }

  lemma {:induction false} WriteFromOk(fs: FS, f: nat, buf: seq<Byte>, pos: Word, i: nat, num: nat)
    requires Inv(fs) && f in fs.tables && i <= num && num * BLOCK_SIZE <= |buf| && Fits(pos, num)
    requires fs.vol.nBlocks + 3 * (num - i) <= DISK_BLOCKS
    ensures var fs' := WriteFS(fs, f, buf, pos, i, num);
      && Inv(fs') && fs'.tables.Keys == fs.tables.Keys
      && forall g, m: nat | g in fs.tables && m < MAX_BLOCKS ::
          Written(fs, fs', f, buf, pos / BLOCK_SIZE, i, num, g, m)
    decreases num - i
  {
    hide Inv, Content, WriteOne, Chunk, BlockNumber;
    var fs' := WriteFS(fs, f, buf, pos, i, num);
    if i == num {
      assert fs'.tables == fs.tables;
    } else {
      BlockNumberIs(pos, i, num);
      var n := BlockNumber(pos, i);
      var fs1 := WriteOneFS(fs, f, n, Chunk(buf, i));
      WriteOneOk(fs, f, n, Chunk(buf, i));
      WriteFromOk(fs1, f, buf, pos, i + 1, num);
      assert fs' == WriteFS(fs1, f, buf, pos, i + 1, num);
      forall g, m: nat | g in fs.tables && m < MAX_BLOCKS
        ensures Written(fs, fs', f, buf, pos / BLOCK_SIZE, i, num, g, m)
      {
        assert Written(fs1, fs', f, buf, pos / BLOCK_SIZE, i + 1, num, g, m);
      }
    }
  }

  /** One call of the block writer on file `f`. */
  datatype Op = Op(f: nat, pos: Word, num: nat, buf: seq<Byte>)

  predicate CanApply(fs: FS, o: Op) {
    o.f in fs.tables && o.num * BLOCK_SIZE <= |o.buf| && Fits(o.pos, o.num)
  }

  /** Upper bound on the blocks a run can take. */
  function Demand(ops: seq<Op>): nat {
    if ops == [] then 0 else Demand(ops[..|ops| - 1]) + 3 * ops[|ops| - 1].num
  }

  predicate CanRun(fs: FS, ops: seq<Op>) {
    (forall o | o in ops :: CanApply(fs, o)) && fs.vol.nBlocks + Demand(ops) <= DISK_BLOCKS
  }

  /** Block `m` of file `f` after the writes of a run, from the writes alone: the last write
      that covers it decides. */
  function Latest(ops: seq<Op>, f: nat, m: nat, before: seq<Byte>): seq<Byte> {
    if ops == [] then before
    else
      var o := ops[|ops| - 1];
      if o.f == f && o.pos / BLOCK_SIZE <= m < o.pos / BLOCK_SIZE + o.num && o.num * BLOCK_SIZE <= |o.buf|
      then Chunk(o.buf, m - o.pos / BLOCK_SIZE)
      else Latest(ops[..|ops| - 1], f, m, before)
  }

  function Run(fs: FS, ops: seq<Op>): (r: FS)
    requires CanRun(fs, ops)
    ensures r.tables.Keys == fs.tables.Keys && r.vol.nBlocks <= fs.vol.nBlocks + Demand(ops)
  {
    if ops == [] then fs
    else
      var init, o := ops[..|ops| - 1], ops[|ops| - 1];
      assert CanApply(fs, o) && forall p | p in init :: p in ops;
      WriteFS(Run(fs, init), o.f, o.buf, o.pos, 0, o.num)
  }

  /** Over any run of writes to any files, no block is ever shared, and every block of every
      file reads as the last write to it. */
  lemma {:induction false} RunOk(fs: FS, ops: seq<Op>)
    requires Inv(fs) && CanRun(fs, ops)
    ensures Inv(Run(fs, ops))
    ensures forall g, m: nat | g in fs.tables && m < MAX_BLOCKS ::
      Content(Run(fs, ops), g, m) == Latest(ops, g, m, Content(fs, g, m))
  {
    hide Inv, Content, Chunk, WriteFS, Fits;
    if ops != [] {
      var init, o := ops[..|ops| - 1], ops[|ops| - 1];
      assert CanApply(fs, o) && forall p | p in init :: p in ops;
      var fs1 := Run(fs, init);
      RunOk(fs, init);
      WriteFromOk(fs1, o.f, o.buf, o.pos, 0, o.num);
      var fs' := Run(fs, ops);
      forall g, m: nat | g in fs.tables && m < MAX_BLOCKS
        ensures Content(fs', g, m) == Latest(ops, g, m, Content(fs, g, m))
      {
        assert Written(fs1, fs', o.f, o.buf, o.pos / BLOCK_SIZE, 0, o.num, g, m);
      }
    }
  }

  // ---------- loading ----------

  /** The block number the load loop arrives at.  It follows table pointers unchecked, so a
      missing table is read from block 0. */
  function Resolve(d: Disk, t: Table, n: nat): Word
  {
    if n < NUM_DIRECT then t[n]
    else if n < NUM_DIRECT + PTRS_PER_BLOCK then WordAt(d[Addr(t[SINGLE])], n - NUM_DIRECT)
    else if n < MAX_BLOCKS then
      var i := n - NUM_DIRECT - PTRS_PER_BLOCK;
      WordAt(d[Addr(WordAt(d[Addr(t[DOUBLE])], i / PTRS_PER_BLOCK))], i % PTRS_PER_BLOCK)
    else
      var i := n - MAX_BLOCKS;
      WordAt(d[Addr(WordAt(d[Addr(WordAt(d[Addr(t[TRIPLE])], i / 0x1_0000 % PTRS_PER_BLOCK))],
        i / PTRS_PER_BLOCK % PTRS_PER_BLOCK))], i % PTRS_PER_BLOCK)
  }

  /** The blocks a file's pointers lead to, table by table: ten, then one table of 256, then 256 of those,
      then 256 of those.  A pointer counts modulo 2^22. */
  lemma ResolvePaths(d: Disk, t: Table, i: nat, j: nat, k: nat)
    requires i < 256 && j < 256 && k < 256
    ensures k < 10 ==> Resolve(d, t, k) == t[k]
    ensures Resolve(d, t, 10 + k) == WordAt(d[t[10] % 0x40_0000], k)
    ensures Resolve(d, t, 266 + 256 * j + k) == WordAt(d[WordAt(d[t[11] % 0x40_0000], j) % 0x40_0000], k)
    ensures Resolve(d, t, 65802 + 65536 * i + 256 * j + k) ==
      WordAt(d[WordAt(d[WordAt(d[t[12] % 0x40_0000], i) % 0x40_0000], j) % 0x40_0000], k)
  {
    hide WordAt;
    TableIndex(0, j, k);
    TableIndex(i, j, k);
  }

  lemma TableIndex(i: nat, j: nat, k: nat)
    requires i < 256 && j < 256 && k < 256
    ensures var n := 65536 * i + 256 * j + k; n / 0x1_0000 % 256 == i && n / 256 % 256 == j && n % 256 == k
    ensures (256 * j + k) / 256 == j && (256 * j + k) % 256 == k
  {
    var n := 65536 * i + 256 * j + k;
    assert n / 256 == 256 * i + j && n / 0x1_0000 == i;
  }

  /** The same slots, as the writer fills them. */
  lemma LeafSlots(j: nat, k: nat)
    requires j < 256 && k < 256
    ensures k < 10 ==> LeafSlot(k) == Root(k)
    ensures LeafSlot(10 + k) == Child(Root(10), k)
    ensures LeafSlot(266 + 256 * j + k) == Child(Child(Root(11), j), k)
  {
    TableIndex(0, j, k);
  }

  function Splice(buf: seq<Byte>, off: nat, data: seq<Byte>): (r: seq<Byte>)
    requires off + |data| <= |buf|
    ensures |r| == |buf|
  {
    buf[..off] + data + buf[off + |data|..]
  }

  predicate NoBlock(b: Word) { b == 0 || b == 0xFFFF_FFFF }

  /** The load loop from iteration `i` on: success, and the buffer it leaves. */
  function LoadFrom(d: Disk, t: Table, buf: seq<Byte>, pos: Word, i: nat, num: nat): (r: (bool, seq<Byte>))
    requires i <= num && num * BLOCK_SIZE <= |buf|
    ensures |r.1| == |buf|
    decreases num - i
  {
    if i == num then (true, buf)
    else
      var b := Resolve(d, t, BlockNumber(pos, i));
      if NoBlock(b) then (i != 0, buf)
      else LoadFrom(d, t, Splice(buf, i * BLOCK_SIZE, d[Addr(b)]), pos, i + 1, num)
  }

  /** The loader finds every block whose table exists: following pointers unchecked is exact. */
  lemma ResolveIsPtr(fs: FS, f: nat, n: nat)
    requires Inv(fs) && f in fs.tables && n < MAX_BLOCKS
    requires n < NUM_DIRECT || !Empty(fs, f, LeafSlot(n).parent)
    ensures Resolve(fs.vol.disk, fs.tables[f], n) == Ptr(fs.vol.disk, fs.tables[f], LeafSlot(n))
  {
    hide WordAt;
    if n >= NUM_DIRECT {
      var p := LeafSlot(n).parent;
      assert InRange(fs, f, p);
      if p.Child? {
        assert InRange(fs, f, p.parent);
        assert p.parent == Root(DOUBLE) && Ptr(fs.vol.disk, fs.tables[f], p.parent) == fs.tables[f][DOUBLE];
        assert Ptr(fs.vol.disk, fs.tables[f], p) == WordAt(fs.vol.disk[fs.tables[f][DOUBLE]], p.j);
      }
    }
  }

  /** The pointer the loader finds for a block that has never been written: 0, unless a pointer table on
      the way is missing too, for then it reads block 0 of the disk in the table's place. */
  function MissingWord(d: Disk, t: Table, n: nat): Word
    requires n < MAX_BLOCKS
  {
    if n < NUM_DIRECT then 0
    else if n < NUM_DIRECT + PTRS_PER_BLOCK then if t[SINGLE] != 0 then 0 else WordAt(d[0], n - NUM_DIRECT)
    else
      var i := n - NUM_DIRECT - PTRS_PER_BLOCK;
      var l1, l2 := i / PTRS_PER_BLOCK, i % PTRS_PER_BLOCK;
      if t[DOUBLE] == 0 then WordAt(d[Addr(WordAt(d[0], l1))], l2)
      else if WordAt(d[Addr(t[DOUBLE])], l1) == 0 then WordAt(d[0], l2)
      else 0
  }

  /** The loader reports a block that has never been written as missing if and only if that word says so. */
  lemma MissingBlocks(fs: FS, f: nat, n: nat)
    requires Inv(fs) && f in fs.tables && n < MAX_BLOCKS && Content(fs, f, n) == []
    ensures Resolve(fs.vol.disk, fs.tables[f], n) == MissingWord(fs.vol.disk, fs.tables[f], n)
    ensures forall buf: seq<Byte> | |buf| == BLOCK_SIZE ::
      LoadFrom(fs.vol.disk, fs.tables[f], buf, n * BLOCK_SIZE, 0, 1).0
      <==> !NoBlock(MissingWord(fs.vol.disk, fs.tables[f], n))
  {
    var d, t, s := fs.vol.disk, fs.tables[f], LeafSlot(n);
    assert Ptr(d, t, s) == 0;
    if n >= NUM_DIRECT + PTRS_PER_BLOCK {
      assert s.parent.parent == Root(DOUBLE) && Ptr(d, t, Root(DOUBLE)) == t[DOUBLE];
      if t[DOUBLE] != 0 && Ptr(d, t, s.parent) != 0 { ResolveIsPtr(fs, f, n); }
    } else if n >= NUM_DIRECT {
      assert s.parent == Root(SINGLE) && Ptr(d, t, s.parent) == t[SINGLE];
      if t[SINGLE] != 0 { ResolveIsPtr(fs, f, n); }
    }
    forall buf: seq<Byte> | |buf| == BLOCK_SIZE
      ensures LoadFrom(d, t, buf, n * BLOCK_SIZE, 0, 1).0 <==> !NoBlock(Resolve(d, t, n))
    {
      LoadsOne(d, t, buf, n);
    }
  }

  lemma LoadsOne(d: Disk, t: Table, buf: seq<Byte>, n: nat)
    requires n < MAX_BLOCKS && |buf| == BLOCK_SIZE
    ensures LoadFrom(d, t, buf, n * BLOCK_SIZE, 0, 1) ==
      var b := Resolve(d, t, n); if NoBlock(b) then (false, buf) else (true, d[Addr(b)])
  {
    hide Resolve;
    assert BlockNumber(n * BLOCK_SIZE, 0) == n;
    var b := Resolve(d, t, n);
    if !NoBlock(b) { assert Splice(buf, 0, d[Addr(b)]) == d[Addr(b)]; }
  }

  /** With a word in block 0, a file that has never been written loads another block's bytes as its own. */
  lemma GarbageLoads() returns (fs: FS)
    ensures Inv(fs) && 0 in fs.tables && Content(fs, 0, 15) == [] && fs.vol.disk[7] != ZeroBlock()
    ensures LoadFrom(fs.vol.disk, fs.tables[0], ZeroBlock(), 15 * BLOCK_SIZE, 0, 1) == (true, fs.vol.disk[7])
  {
    var zero: Disk := seq<Block>(DISK_BLOCKS, i => ZeroBlock());
    var d: Disk := zero[0 := PutWord(ZeroBlock(), 5, 7)][7 := PutWord(ZeroBlock(), 0, 1)]
      [SUPER_BLOCK := PutWord(ZeroBlock(), 2, FIRST_BLOCK)];
    var t: Table := seq(13, i => 0);
    fs := FS(Vol(d, FIRST_BLOCK), map[0 := t]);
    forall f, s | f in fs.tables && IsSlot(s) ensures Ptr(d, fs.tables[f], s) == 0 { EmptyFile(d, s); }
    assert WordAt(d[7], 0) == 1 && WordAt(ZeroBlock(), 0) == 0;
    assert Resolve(d, t, 15) == 7;
    LoadsOne(d, t, ZeroBlock(), 15);
  }

  lemma {:induction false} EmptyFile(d: Disk, s: Slot)
    requires IsSlot(s)
    ensures Ptr(d, seq(13, i => 0), s) == 0
    decreases s
  {
    if s.Child? { EmptyFile(d, s.parent); }
  }

  lemma ContentResolves(fs: FS, f: nat, n: nat)
    requires Inv(fs) && f in fs.tables && n < MAX_BLOCKS && Content(fs, f, n) != []
    ensures var b := Resolve(fs.vol.disk, fs.tables[f], n);
      !NoBlock(b) && fs.vol.disk[Addr(b)] == Content(fs, f, n)
  {
    hide WordAt, Resolve;
    ResolveIsPtr(fs, f, n);
    assert InRange(fs, f, LeafSlot(n));
  }

  /** `num` blocks of `out` from iteration `i` on are the stored blocks from `lo + i` on. */
  ghost predicate Loaded(fs: FS, f: nat, out: seq<Byte>, lo: nat, i: nat, num: nat)
    requires f in fs.tables && num * BLOCK_SIZE <= |out| && lo + num <= MAX_BLOCKS
  {
    forall m: nat | lo + i <= m < lo + num :: Chunk(out, m - lo) == Content(fs, f, m)
  }

  lemma SpliceChunk(buf: seq<Byte>, i: nat, data: Block)
    requires (i + 1) * BLOCK_SIZE <= |buf|
    ensures Chunk(Splice(buf, i * BLOCK_SIZE, data), i) == data
    ensures Splice(buf, i * BLOCK_SIZE, data)[..i * BLOCK_SIZE] == buf[..i * BLOCK_SIZE]
  {
  }

  lemma ChunkOfPrefix(a: seq<Byte>, b: seq<Byte>, i: nat)
    requires |a| == |b| && (i + 1) * BLOCK_SIZE <= |a|
    requires a[..(i + 1) * BLOCK_SIZE] == b[..(i + 1) * BLOCK_SIZE]
    ensures Chunk(a, i) == Chunk(b, i) && a[..i * BLOCK_SIZE] == b[..i * BLOCK_SIZE]
  {
    assert Chunk(a, i) == a[..(i + 1) * BLOCK_SIZE][i * BLOCK_SIZE..];
    assert Chunk(b, i) == b[..(i + 1) * BLOCK_SIZE][i * BLOCK_SIZE..];
    assert a[..i * BLOCK_SIZE] == a[..(i + 1) * BLOCK_SIZE][..i * BLOCK_SIZE];
    assert b[..i * BLOCK_SIZE] == b[..(i + 1) * BLOCK_SIZE][..i * BLOCK_SIZE];
  }

  /** Loading succeeds and fills the buffer with the stored blocks as far as blocks exist
      without a gap. */
  lemma {:induction false} LoadFromOk(fs: FS, f: nat, buf: seq<Byte>, pos: Word, i: nat, have: nat, num: nat)
    requires Inv(fs) && f in fs.tables && i <= have <= num && num * BLOCK_SIZE <= |buf| && Fits(pos, num)
    requires forall m: nat | pos / BLOCK_SIZE + i <= m < pos / BLOCK_SIZE + have :: Content(fs, f, m) != []
    ensures var (ok, out) := LoadFrom(fs.vol.disk, fs.tables[f], buf, pos, i, num);
      (have > 0 || num == 0 ==> ok) && out[..i * BLOCK_SIZE] == buf[..i * BLOCK_SIZE]
      && Loaded(fs, f, out, pos / BLOCK_SIZE, i, have)
    decreases num - i
  {
    hide Inv, Content, Resolve, Ptr, BlockNumber, Chunk, Splice;
    if i < num {
      BlockNumberIs(pos, i, num);
      var n, d := BlockNumber(pos, i), fs.vol.disk;
      var b := Resolve(d, fs.tables[f], n);
      if i < have { ContentResolves(fs, f, n); }
      if !NoBlock(b) {
        var buf1 := Splice(buf, i * BLOCK_SIZE, d[Addr(b)]);
        SpliceChunk(buf, i, d[Addr(b)]);
        LoadFromOk(fs, f, buf1, pos, i + 1, if i < have then have else i + 1, num);
        var (ok, out) := LoadFrom(d, fs.tables[f], buf, pos, i, num);
        ChunkOfPrefix(out, buf1, i);
      }
    }
  }

  /** Loading right after writing returns exactly the bytes written. */
  lemma {:induction false} LoadAfterWrite(fs: FS, f: nat, buf: seq<Byte>, pos: Word, num: nat, scratch: seq<Byte>)
    requires Inv(fs) && f in fs.tables && num * BLOCK_SIZE <= |buf| && Fits(pos, num)
    requires fs.vol.nBlocks + 3 * num <= DISK_BLOCKS && |scratch| == num * BLOCK_SIZE
    ensures var fs' := WriteFS(fs, f, buf, pos, 0, num);
      LoadFrom(fs'.vol.disk, fs'.tables[f], scratch, pos, 0, num) == (true, buf[..num * BLOCK_SIZE])
  {
    hide Inv, Content, WriteFS, LoadFrom;
    WriteFromOk(fs, f, buf, pos, 0, num);
    var fs' := WriteFS(fs, f, buf, pos, 0, num);
    var lo := pos / BLOCK_SIZE;
    forall m: nat | lo <= m < lo + num ensures Content(fs', f, m) != [] {
      assert Written(fs, fs', f, buf, lo, 0, num, f, m);
    }
    LoadFromOk(fs', f, scratch, pos, 0, num, num);
    var (ok, out) := LoadFrom(fs'.vol.disk, fs'.tables[f], scratch, pos, 0, num);
    forall k | 0 <= k < num * BLOCK_SIZE ensures out[k] == buf[k] {
      var m := lo + k / BLOCK_SIZE;
      assert Written(fs, fs', f, buf, lo, 0, num, f, m);
      assert Chunk(out, m - lo)[k % BLOCK_SIZE] == Chunk(buf, m - lo)[k % BLOCK_SIZE];
    }
    assert out == buf[..num * BLOCK_SIZE];
  }
}
