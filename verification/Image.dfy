/**
 Images of several files packed one after another, and when the file system can take such an image
 over: the state from which every run of the kernel starts.
 */
module Images {
  import opened Blocks
  import opened BlockMap
  import opened Inodes
  import opened FileHandle
  import opened Packers

  type File = seq<Byte>

  /** Blocks of the image that a file takes up. */
  function Used(size: nat): nat { TotalBlocks(size) + if HasPointers(size) then 1 else 0 }

  /** The first block of file `i`, or behind the last file the number of blocks of the image. */
  function Start(files: seq<File>, i: nat): (b: nat)
    requires i <= |files|
    ensures b >= FIRST_BLOCK
  {
    if i == 0 then FIRST_BLOCK else Start(files, i - 1) + Used(|files[i - 1]|)
  }

  lemma {:induction false} StartsGrow(files: seq<File>, i: nat, j: nat)
    requires i <= j <= |files|
    ensures Start(files, i) <= Start(files, j)
    ensures i < j ==> Start(files, i) + Used(|files[i]|) <= Start(files, j)
    decreases j
  {
    if i < j { StartsGrow(files, i, j - 1); }
  }

  /** Files of a size the packer serves, on a disk with room for them. */
  ghost predicate Packable(files: seq<File>) {
    && Start(files, |files|) + 1 < DISK_BLOCKS
    && forall i | 0 <= i < |files| :: TotalBlocks(|files[i]|) <= NUM_DIRECT + PTRS_PER_BLOCK && !Forgotten(|files[i]|)
  }

  lemma Fits(files: seq<File>, i: nat)
    requires Packable(files) && i < |files|
    ensures Start(files, i) + Used(|files[i]|) + 1 < DISK_BLOCKS &&
      Start(files, i) + TotalBlocks(|files[i]|) + 1 < DISK_BLOCKS
    ensures TotalBlocks(|files[i]|) <= NUM_DIRECT + PTRS_PER_BLOCK && !Forgotten(|files[i]|)
  {
    StartsGrow(files, i, |files|);
  }

  /** The inode pointers of file `i`. */
  ghost function TableOf(files: seq<File>, i: nat): Table
    requires Packable(files) && i < |files|
  {
    Fits(files, i);
    PackedTable(|files[i]|, Start(files, i))
  }

  ghost function InodeOf(files: seq<File>, i: nat): Inode
    requires Packable(files) && i < |files|
  {
    Fits(files, i);
    Inode(FILE, |files[i]|, TableOf(files, i))
  }

  /** What is written for the files behind the metadata. */
  ghost function Body(files: seq<File>, i: nat): (b: seq<Byte>)
    requires Packable(files) && i <= |files|
    ensures |b| == (Start(files, i) - FIRST_BLOCK) * BLOCK_SIZE
  {
    if i == 0 then []
    else
      Fits(files, i - 1);
      Body(files, i - 1) + PackedBytes(files[i - 1], Start(files, i - 1))
  }

  /** Packs the files of a directory one after another. */
  method PackFiles(p: Packer, files: seq<File>)
    requires Packable(files) && |p.output| == FIRST_BLOCK * BLOCK_SIZE
    modifies p
    ensures p.output == old(p.output) + Body(files, |files|) && |p.inodes| == |old(p.inodes)| + |files|
    ensures forall i | 0 <= i < |files| :: p.inodes[|old(p.inodes)| + i] == InodeOf(files, i)
  {
    hide PackedBytes, PackedTable, Packable, Start;
    ghost var start, before := p.output, p.inodes;
    assert start + Body(files, 0) == start;
    for n := 0 to |files|
      invariant p.output == start + Body(files, n) && |p.inodes| == |before| + n
      invariant forall i | 0 <= i < n :: p.inodes[|before| + i] == InodeOf(files, i)
    {
      BodyNext(files, n);
      BodyLength(files, n);
      ghost var b := Body(files, n);
      var number := p.PackFile(files[n]);
      assert (start + b) + PackedBytes(files[n], Start(files, n)) ==
        start + (b + PackedBytes(files[n], Start(files, n)));
    }
  }

  lemma BodyLength(files: seq<File>, i: nat)
    requires Packable(files) && i <= |files|
    ensures (FIRST_BLOCK * BLOCK_SIZE + |Body(files, i)|) == Start(files, i) * BLOCK_SIZE
  {
  }

  /** A little-endian word at a byte offset. */
  function LittleWord(s: seq<Byte>, at: nat): Word
    requires at + 4 <= |s|
  {
    (s[at] as int) + 0x100 * (s[at + 1] as int) + 0x1_0000 * (s[at + 2] as int) + 0x100_0000 * (s[at + 3] as int)
  }

  /** The record of a file: type, size and pointers, each a little-endian word. */
  ghost predicate RecordAt(meta: seq<Byte>, at: nat, kind: Word, size: Word, table: Table)
    requires at + 60 <= |meta|
  {
    && LittleWord(meta, at) == kind && LittleWord(meta, at + 4) == size
    && forall k | 0 <= k < 13 :: LittleWord(meta, at + 8 + 4 * k) == table[k]
  }

  /** The inodes of the files one after another, behind that of the directory, as the builder writes them at last. */
  ghost predicate Records(meta: seq<Byte>, files: seq<File>)
    requires Packable(files) && |meta| == FIRST_BLOCK * BLOCK_SIZE && |files| < SAFE_INODES
  {
    forall i | 0 <= i < |files| :: RecordAt(meta, 591872 + 64 * (i + 1), 1, |files[i]|, TableOf(files, i))
  }

  /** A disk with such an image on it: its block count, its inodes below the files, otherwise any metadata, and
      nothing behind the files. */
  ghost predicate OnImage(d: Disk, meta: seq<Byte>, files: seq<File>) {
    && Packable(files) && |meta| == FIRST_BLOCK * BLOCK_SIZE && Holds(d, meta + Body(files, |files|))
    && |files| < SAFE_INODES && Records(meta, files)
    && LittleWord(meta, 0x1_0008) == Start(files, |files|)
    && forall b | Start(files, |files|) <= b < DISK_BLOCKS :: d[b] == ZeroBlock()
  }

  /** The file system as the kernel finds it. */
  ghost function Booted(d: Disk, files: seq<File>): (fs: FS)
    requires Packable(files)
    ensures fs.vol == Vol(d, Start(files, |files|))
    ensures forall i: nat :: i in fs.tables <==> i < |files|
    ensures forall i: nat | i < |files| :: fs.tables[i] == TableOf(files, i)
  {
    FS(Vol(d, Start(files, |files|)), map i: nat | i < |files| :: TableOf(files, i))
  }

  lemma BodyNext(files: seq<File>, i: nat)
    requires Packable(files) && i < |files|
    ensures Start(files, i) + TotalBlocks(|files[i]|) + 1 < DISK_BLOCKS &&
      TotalBlocks(|files[i]|) <= NUM_DIRECT + PTRS_PER_BLOCK
    ensures Body(files, i + 1) == Body(files, i) + PackedBytes(files[i], Start(files, i))
  {
    Fits(files, i);
    hide PackedBytes, Packable, Start;
  }

  /** The body of the image around one file. */
  lemma {:induction false} SplitBody(files: seq<File>, i: nat, n: nat) returns (after: seq<Byte>)
    requires Packable(files) && i < n <= |files|
    ensures Start(files, i) + TotalBlocks(|files[i]|) + 1 < DISK_BLOCKS &&
      TotalBlocks(|files[i]|) <= NUM_DIRECT + PTRS_PER_BLOCK
    ensures Body(files, n) == Body(files, i) + PackedBytes(files[i], Start(files, i)) + after
    decreases n
  {
    hide Body, PackedBytes, Packable, Start;
    BodyNext(files, i);
    BodyNext(files, n - 1);
    if i + 1 == n {
      after := [];
      assert Body(files, n) + [] == Body(files, n);
    } else {
      var rest := SplitBody(files, i, n - 1);
      var last := PackedBytes(files[n - 1], Start(files, n - 1));
      after := rest + last;
      assert (Body(files, i) + PackedBytes(files[i], Start(files, i)) + rest) + last
        == Body(files, i) + PackedBytes(files[i], Start(files, i)) + after;
    }
  }

  lemma ImageIs(d: Disk, meta: seq<Byte>, files: seq<File>)
    requires OnImage(d, meta, files)
    ensures Packable(files) && |meta| == FIRST_BLOCK * BLOCK_SIZE && Holds(d, meta + Body(files, |files|))
  {
  }

  lemma EachOnDisk(d: Disk, meta: seq<Byte>, files: seq<File>, i: nat) returns (before: seq<Byte>, after: seq<Byte>)
    requires OnImage(d, meta, files) && i < |files|
    ensures |before| == Start(files, i) * BLOCK_SIZE && OnDisk(d, before, files[i], after)
  {
    hide Holds, PackedBytes, OnImage, Packable, Start, Body;
    ImageIs(d, meta, files);
    Fits(files, i);
    after := SplitBody(files, i, |files|);
    before := meta + Body(files, i);
    var p := PackedBytes(files[i], Start(files, i));
    assert meta + (Body(files, i) + p + after) == before + p + after;
    assert |before| / BLOCK_SIZE == Start(files, i) && |before| % BLOCK_SIZE == 0;
  }

  // ---------- the pointers of a packed file ----------

  /** Sizes of whole blocks that get a pointer too many. */
  predicate Surplus(size: nat) { 0 < size <= NUM_DIRECT * BLOCK_SIZE && size % BLOCK_SIZE == 0 }

  /** The slot a packed file keeps its block `o` at; behind the data comes the pointer block. */
  function SlotAt(size: nat, o: nat): Slot {
    if o < NUM_DIRECT then Root(o)
    else if o < TotalBlocks(size) then Child(Root(SINGLE), o - NUM_DIRECT)
    else Root(SINGLE)
  }

  /** The pointers in the slots of a packed file: its blocks in order, and no others. */
  lemma PackedSlots(d: Disk, before: seq<Byte>, data: File, after: seq<Byte>, u: Slot)
    requires OnDisk(d, before, data, after) && !Forgotten(|data|) && !Surplus(|data|) && IsSlot(u)
    ensures var first := |before| / BLOCK_SIZE; var p := Ptr(d, PackedTable(|data|, first), u);
      p != 0 ==> first <= p < first + Used(|data|) && u == SlotAt(|data|, p - first)
    decreases u
  {
    hide WordAt, Holds, OnDisk, PackedBytes, PointerBlock, Consecutive;
    OnDiskFits(d, before, data, after);
    var first, t := |before| / BLOCK_SIZE, PackedTable(|data|, |before| / BLOCK_SIZE);
    match u
    case Root(k) =>
    case Child(p, j) =>
      if p == Root(SINGLE) {
        if HasPointers(|data|) {
          PackedPointers(d, before, data, after);
          PointersAre(first, TotalBlocks(|data|), j);
        }
      } else if p == Root(DOUBLE) {
        assert t[DOUBLE] == 0;
      } else {
        assert p.parent == Root(DOUBLE) && t[DOUBLE] == 0 && Ptr(d, t, p) == 0;
      }
  }

  lemma PointersAre(first: nat, total: nat, j: nat)
    requires NUM_DIRECT < total <= NUM_DIRECT + PTRS_PER_BLOCK && first + total + 1 < DISK_BLOCKS && j < PTRS_PER_BLOCK
    ensures WordAt(PointerBlock(Consecutive(first + NUM_DIRECT, total - NUM_DIRECT)), j)
      == if j < total - NUM_DIRECT then first + NUM_DIRECT + j else 0
  {
  }

  lemma ImageSlots(d: Disk, meta: seq<Byte>, files: seq<File>, i: nat, u: Slot)
    requires OnImage(d, meta, files) && i < |files| && !Surplus(|files[i]|) && IsSlot(u)
    ensures var p := Ptr(d, TableOf(files, i), u);
      p != 0 ==> Start(files, i) <= p < Start(files, i + 1) && u == SlotAt(|files[i]|, p - Start(files, i))
  {
    hide OnDisk, Ptr, SlotAt, PackedTable, Holds, Forgotten, Surplus, TotalBlocks, HasPointers, Body, IsSlot, OnImage,
      Packable;
    ImageIs(d, meta, files);
    var before, after := EachOnDisk(d, meta, files, i);
    Fits(files, i);
    assert |before| / BLOCK_SIZE == Start(files, i);
    PackedSlots(d, before, files[i], after, u);
  }

  /** Where the pointer too many leads. */
  lemma SurplusSlot(d: Disk, files: seq<File>, i: nat)
    requires Packable(files) && i < |files| && Surplus(|files[i]|)
    ensures var k := |files[i]| / BLOCK_SIZE;
      1 <= k <= NUM_DIRECT && IsSlot(Root(k)) && Ptr(d, TableOf(files, i), Root(k)) == Start(files, i + 1)
  {
    Fits(files, i);
    var k := |files[i]| / BLOCK_SIZE;
    assert |files[i]| == k * BLOCK_SIZE && TotalBlocks(|files[i]|) == k;
    SurplusPointer(|files[i]|, Start(files, i));
  }

  /** The first block of a file that is not empty. */
  lemma FirstSlot(d: Disk, files: seq<File>, j: nat)
    requires Packable(files) && j < |files| && files[j] != []
    ensures Ptr(d, TableOf(files, j), Root(0)) == Start(files, j)
  {
    Fits(files, j);
  }

  lemma {:induction false} NextFile(files: seq<File>, i: nat) returns (j: nat)
    requires i <= |files|
    ensures i <= j <= |files| && Start(files, j) == Start(files, i) && (j < |files| ==> files[j] != [])
    decreases |files| - i
  {
    if i == |files| || files[i] != [] {
      j := i;
    } else {
      j := NextFile(files, i + 1);
    }
  }

  // ---------- when the invariant holds ----------

  /** The kernel's invariant holds of a packed image if and only if no file is of one to ten whole blocks:
      such a file also owns the first block of the next one, or the first block that is still free. */
  lemma ImageInv(d: Disk, meta: seq<Byte>, files: seq<File>)
    requires OnImage(d, meta, files)
    ensures Inv(Booted(d, files)) <==> forall i | 0 <= i < |files| :: !Surplus(|files[i]|)
  {
    if i :| 0 <= i < |files| && Surplus(|files[i]|) {
      SurplusBreaks(d, files, i);
    } else {
      GoodImage(d, meta, files);
    }
  }

  lemma SurplusBreaks(d: Disk, files: seq<File>, i: nat)
    requires Packable(files) && i < |files| && Surplus(|files[i]|)
    ensures !Inv(Booted(d, files))
  {
    hide Inv;
    var fs, k := Booted(d, files), |files[i]| / BLOCK_SIZE;
    SurplusSlot(d, files, i);
    var j := NextFile(files, i + 1);
    if j < |files| {
      FirstSlot(d, files, j);
      assert !BlockMap.Apart(fs, i, Root(k), j, Root(0));
    } else {
      assert !InRange(fs, i, Root(k));
    }
    if Inv(fs) { InvParts(fs, i, Root(k), if j < |files| then j else i, Root(0)); }
  }

  lemma InvParts(fs: FS, f: nat, s: Slot, g: nat, u: Slot)
    requires Inv(fs) && f in fs.tables && g in fs.tables && IsSlot(s) && IsSlot(u)
    ensures InRange(fs, f, s) && BlockMap.Apart(fs, f, s, g, u)
  {
  }

  /** The kernel finds the block count in the third word of the super block. */
  lemma BlockCount(d: Disk, meta: seq<Byte>, files: seq<File>)
    requires OnImage(d, meta, files)
    ensures WordAt(d[SUPER_BLOCK], 2) == Start(files, |files|)
  {
    hide Holds, Body, Records, WordAt, LittleWord;
    MetaChunks(d, meta, files);
    MetaWord(d, meta, SUPER_BLOCK, 2);
  }

  lemma GoodImage(d: Disk, meta: seq<Byte>, files: seq<File>)
    requires OnImage(d, meta, files) && forall i | 0 <= i < |files| :: !Surplus(|files[i]|)
    ensures Inv(Booted(d, files))
  {
    var fs := Booted(d, files);
    BlockCount(d, meta, files);
    hide Ptr, Holds, LittleWord, Records, Surplus, Body, PackedTable, InRange, BlockMap.Apart, WordAt, IsSlot, Start;
    StartsGrow(files, 0, |files|);
    FirstStart(files);
    forall f, s | f in fs.tables && IsSlot(s) ensures InRange(fs, f, s) { GoodRange(d, meta, files, f, s); }
    forall f, s, g, u | f in fs.tables && IsSlot(s) && g in fs.tables && IsSlot(u)
      ensures BlockMap.Apart(fs, f, s, g, u)
    {
      GoodApart(d, meta, files, f, s, g, u);
    }
  }

  lemma FirstStart(files: seq<File>)
    ensures Start(files, 0) == FIRST_BLOCK
  {
  }

  lemma GoodRange(d: Disk, meta: seq<Byte>, files: seq<File>, f: nat, s: Slot)
    requires OnImage(d, meta, files) && f < |files| && IsSlot(s) && !Surplus(|files[f]|)
    ensures InRange(Booted(d, files), f, s)
  {
    hide Ptr, Holds, SlotAt, Surplus, Body, PackedTable, WordAt, IsSlot;
    ImageSlots(d, meta, files, f, s);
    StartsGrow(files, f + 1, |files|);
    hide Start;
  }

  lemma GoodApart(d: Disk, meta: seq<Byte>, files: seq<File>, f: nat, s: Slot, g: nat, u: Slot)
    requires OnImage(d, meta, files) && f < |files| && g < |files| && IsSlot(s) && IsSlot(u)
    requires !Surplus(|files[f]|) && !Surplus(|files[g]|)
    ensures BlockMap.Apart(Booted(d, files), f, s, g, u)
  {
    hide Ptr, Holds, SlotAt, Surplus, Body, PackedTable, WordAt, IsSlot, Start;
    ImageSlots(d, meta, files, f, s);
    ImageSlots(d, meta, files, g, u);
    if f < g { StartsGrow(files, f + 1, g); } else if g < f { StartsGrow(files, g + 1, f); }
    hide OnImage;
  }

  /** What the files of the image hold, block by block. */
  function Packed(data: File, m: nat): seq<Byte> { if m < TotalBlocks(|data|) then Chunk(Padded(data), m) else [] }

  lemma ImageContent(d: Disk, meta: seq<Byte>, files: seq<File>, i: nat, m: nat)
    requires OnImage(d, meta, files) && i < |files| && m < MAX_BLOCKS && Inv(Booted(d, files))
    requires !Surplus(|files[i]|)
    ensures Content(Booted(d, files), i, m) == Packed(files[i], m)
  {
    hide OnDisk, Ptr, PackedTable, Holds, Forgotten, Surplus, TotalBlocks, HasPointers, Body, IsSlot, Inv, Resolve,
      Padded, Chunk, WordAt, PackedBytes;
    if m < TotalBlocks(|files[i]|) { ImageData(d, meta, files, i, m); } else { ImageEnd(d, meta, files, i, m); }
  }

  lemma ImageData(d: Disk, meta: seq<Byte>, files: seq<File>, i: nat, m: nat)
    requires OnImage(d, meta, files) && i < |files| && m < TotalBlocks(|files[i]|) && m < MAX_BLOCKS
    requires Inv(Booted(d, files)) && !Surplus(|files[i]|)
    ensures Content(Booted(d, files), i, m) == Chunk(Padded(files[i]), m)
  {
    hide OnDisk, Ptr, Holds, Surplus, TotalBlocks, HasPointers, Body, Inv, Resolve, Padded, Chunk, WordAt, PackedBytes,
      OnImage, Packable, PackedTable, Records;
    SizeFits(d, meta, files, i);
    var before, after := EachOnDisk(d, meta, files, i);
    Fits(files, i);
    TableThere(d, files, i, m);
    assert |before| / BLOCK_SIZE == Start(files, i);
    PackedResolves(d, before, files[i], after, m);
    PackedData(d, before, files[i], after, m);
    ResolveIsPtr(Booted(d, files), i, m);
  }

  lemma ImageEnd(d: Disk, meta: seq<Byte>, files: seq<File>, i: nat, m: nat)
    requires OnImage(d, meta, files) && i < |files| && TotalBlocks(|files[i]|) <= m < MAX_BLOCKS && !Surplus(|files[i]|)
    ensures Content(Booted(d, files), i, m) == []
  {
    ImageSlots(d, meta, files, i, LeafSlot(m));
    Fits(files, i);
    PlaceOf(|files[i]|, m);
    hide OnImage, Ptr, SlotAt, LeafSlot, Packable;
  }

  /** The pointer table is there for the blocks that need it. */
  lemma TableThere(d: Disk, files: seq<File>, i: nat, m: nat)
    requires Packable(files) && i < |files| && m < TotalBlocks(|files[i]|) && m < MAX_BLOCKS && !Surplus(|files[i]|)
    ensures m < NUM_DIRECT || Ptr(d, TableOf(files, i), LeafSlot(m).parent) != 0
  {
    Fits(files, i);
  }

  lemma PlaceOf(size: nat, m: nat)
    requires m >= TotalBlocks(size) && m < MAX_BLOCKS && TotalBlocks(size) <= NUM_DIRECT + PTRS_PER_BLOCK
    ensures forall o: nat | o < Used(size) :: LeafSlot(m) != SlotAt(size, o)
  {
  }

  /** From such an image on, over every run of writes, each block of each file holds what was packed until
      it is written, and then what the last write put there. */
  lemma RunFromImage(d: Disk, meta: seq<Byte>, files: seq<File>, ops: seq<Op>)
    requires OnImage(d, meta, files) && (forall i | 0 <= i < |files| :: !Surplus(|files[i]|))
    requires CanRun(Booted(d, files), ops)
    ensures Inv(Run(Booted(d, files), ops))
    ensures forall g: nat, m: nat | g < |files| && m < MAX_BLOCKS ::
      Content(Run(Booted(d, files), ops), g, m) == Latest(ops, g, m, Packed(files[g], m))
  {
    var fs := Booted(d, files);
    ImageInv(d, meta, files);
    RunOk(fs, ops);
    hide OnImage, Inv, Content, Surplus, Packed;
    forall g: nat, m: nat | g < |files| && m < MAX_BLOCKS
      ensures Content(Run(fs, ops), g, m) == Latest(ops, g, m, Packed(files[g], m))
    {
      ImageContent(d, meta, files, g, m);
    }
  }

  /** A packed file can be opened, and its bytes are those that were packed. */
  lemma ImageOpens(d: Disk, meta: seq<Byte>, files: seq<File>, i: nat)
    requires OnImage(d, meta, files) && (forall i | 0 <= i < |files| :: !Surplus(|files[i]|)) && i < |files|
    ensures Allocated(Booted(d, files), i, |files[i]|) && Bytes(Booted(d, files), i, |files[i]|) == files[i]
  {
    hide OnImage, Inv, Content, Surplus, Packable, Padded, Allocated;
    SizeFits(d, meta, files, i);
    ImageInv(d, meta, files);
    forall n: nat | n < MAX_BLOCKS && n * BLOCK_SIZE < |files[i]|
      ensures Content(Booted(d, files), i, n) == Chunk(Padded(files[i]), n)
    {
      ImageContent(d, meta, files, i, n);
    }
    BytesAre(Booted(d, files), i, files[i]);
  }

  lemma SizeFits(d: Disk, meta: seq<Byte>, files: seq<File>, i: nat)
    requires OnImage(d, meta, files) && i < |files|
    ensures Packable(files) && |files[i]| <= MAX_SIZE
  {
    Fits(files, i);
  }

  /** A file whose blocks hold the padded bytes has these bytes. */
  lemma BytesAre(fs: FS, f: nat, data: File)
    requires f in fs.tables && |data| <= MAX_SIZE
    requires forall n: nat | n < MAX_BLOCKS && n * BLOCK_SIZE < |data| :: Content(fs, f, n) == Chunk(Padded(data), n)
    ensures Allocated(fs, f, |data|) && Bytes(fs, f, |data|) == data
  {
    hide Content, Padded;
    forall k: nat | k < |data| ensures Bytes(fs, f, |data|)[k] == data[k] {
      assert Content(fs, f, k / BLOCK_SIZE) == Chunk(Padded(data), k / BLOCK_SIZE);
      ChunkAt(Padded(data), 0, k);
    }
  }

  // ---------- the inodes of an image ----------

  lemma ByteIn(meta: seq<Byte>, b: nat, j: nat)
    requires (b + 1) * BLOCK_SIZE <= |meta| && j < BLOCK_SIZE
    ensures Chunk(meta, b)[j] == meta[b * BLOCK_SIZE + j]
  {
  }

  lemma MetaWord(d: Disk, meta: seq<Byte>, b: nat, w: nat)
    requires |meta| == FIRST_BLOCK * BLOCK_SIZE && b < FIRST_BLOCK && w < PTRS_PER_BLOCK && Chunk(meta, b) == d[b]
    ensures LittleWord(meta, b * BLOCK_SIZE + 4 * w) == WordAt(d[b], w)
  {
    ByteIn(meta, b, 4 * w);
    ByteIn(meta, b, 4 * w + 1);
    ByteIn(meta, b, 4 * w + 2);
    ByteIn(meta, b, 4 * w + 3);
    hide Chunk;
  }

  lemma MetaInode(d: Disk, meta: seq<Byte>, number: nat, k: nat)
    requires |meta| == FIRST_BLOCK * BLOCK_SIZE && (forall b: nat | b < FIRST_BLOCK :: Chunk(meta, b) == d[b])
    requires number < SAFE_INODES && k < WORDS_PER_INODE
    ensures LittleWord(meta, 591872 + 64 * number + 4 * k) == WordAt(d[InodeBlock(number)], InodeWord(number) + k)
  {
    hide WordAt, InodeBlock, InodeWord, LittleWord;
    TableBelowFiles(number);
    InodePlace(number, k);
    MetaWord(d, meta, InodeBlock(number), InodeWord(number) + k);
  }

  /** The kernel fetches from place `number` what the builder has written there. */
  lemma RecordFetched(d: Disk, meta: seq<Byte>, number: nat, x: Inode)
    requires |meta| == FIRST_BLOCK * BLOCK_SIZE && (forall b: nat | b < FIRST_BLOCK :: Chunk(meta, b) == d[b])
    requires number < SAFE_INODES
    ensures RecordAt(meta, 591872 + 64 * number, x.kind, x.size, x.blocks) <==> FetchInode(d, number) == x
  {
    hide WordAt, InodeBlock, InodeWord, LittleWord, ReadWords;
    var y := FetchInode(d, number);
    MetaInode(d, meta, number, 0);
    MetaInode(d, meta, number, 1);
    forall k: nat | k < 13 ensures LittleWord(meta, 591872 + 64 * number + 8 + 4 * k) == y.blocks[k] {
      MetaInode(d, meta, number, k + 2);
    }
    if RecordAt(meta, 591872 + 64 * number, x.kind, x.size, x.blocks) { assert x.blocks == y.blocks; }
  }

  /** So from an image it fetches the inodes that were packed, number 0 being that of the directory, and with them
      the pointers by which the system is entered. */
  lemma PackedInode(d: Disk, meta: seq<Byte>, files: seq<File>, i: nat)
    requires OnImage(d, meta, files) && i < |files|
    ensures i + 1 < SAFE_INODES && FetchInode(d, i + 1) == InodeOf(files, i)
    ensures FetchInode(d, i + 1).blocks == Booted(d, files).tables[i]
  {
    hide TableOf, FetchInode, Start, PackedBytes, Body, RecordAt;
    MetaChunks(d, meta, files);
    RecordFetched(d, meta, i + 1, InodeOf(files, i));
  }

  lemma MetaChunks(d: Disk, meta: seq<Byte>, files: seq<File>)
    requires OnImage(d, meta, files)
    ensures |meta| == FIRST_BLOCK * BLOCK_SIZE && forall b: nat | b < FIRST_BLOCK :: Chunk(meta, b) == d[b]
  {
    var all := meta + Body(files, |files|);
    hide Body, Records;
    forall b: nat | b < FIRST_BLOCK ensures Chunk(meta, b) == d[b] {
      assert Chunk(all, b) == Chunk(meta, b);
    }
  }

  lemma RestKept(d: Disk, x: Inode, number: nat)
    requires number < SAFE_INODES
    ensures forall b: nat | b < DISK_BLOCKS && !(SUPER_BLOCK < b < FIRST_BLOCK) :: WriteInode(d, x, number)[b] == d[b]
  {
    TableBelowFiles(number);
    hide InodeBlock, PutWords;
  }

  /** A disk on which the inodes of the first `n` files have been stored. */
  ghost function WithRecords(d: Disk, files: seq<File>, n: nat): Disk
    requires Packable(files) && n <= |files| < SAFE_INODES
  {
    if n == 0 then d else WriteInode(WithRecords(d, files, n - 1), InodeOf(files, n - 1), n)
  }

  lemma {:induction false} RecordsWritten(d: Disk, files: seq<File>, n: nat)
    requires Packable(files) && n <= |files| < SAFE_INODES
    ensures var d' := WithRecords(d, files, n);
      && (forall b: nat | b < DISK_BLOCKS && !(SUPER_BLOCK < b < FIRST_BLOCK) :: d'[b] == d[b])
      && forall i: nat | i < n :: FetchInode(d', i + 1) == InodeOf(files, i)
  {
    hide InodeOf, FetchInode, WriteInode;
    if n > 0 {
      RecordsWritten(d, files, n - 1);
      TableBelowFiles(n);
      var e, x := WithRecords(d, files, n - 1), InodeOf(files, n - 1);
      RestKept(e, x, n);
      forall i: nat | i < n ensures FetchInode(WriteInode(e, x, n), i + 1) == InodeOf(files, i) {
        FetchAfterWrite(e, x, n, i + 1);
      }
    }
  }

  lemma RecordsHold(d: Disk, meta: seq<Byte>, files: seq<File>)
    requires Packable(files) && |files| < SAFE_INODES && |meta| == FIRST_BLOCK * BLOCK_SIZE
    requires forall b: nat | b < FIRST_BLOCK :: Chunk(meta, b) == d[b]
    requires forall i: nat | i < |files| :: FetchInode(d, i + 1) == InodeOf(files, i)
    ensures Records(meta, files)
  {
    hide FetchInode, TableOf, RecordAt;
    forall i | 0 <= i < |files|
      ensures RecordAt(meta, 591872 + 64 * (i + 1), 1, |files[i]|, TableOf(files, i))
    {
      RecordFetched(d, meta, i + 1, InodeOf(files, i));
    }
  }

  /** The disk with all inodes stored, and its metadata. */
  lemma Sealed(d: Disk, files: seq<File>) returns (e: Disk, meta: seq<Byte>)
    requires Packable(files) && |files| < SAFE_INODES
    ensures forall b: nat | b < DISK_BLOCKS && !(SUPER_BLOCK < b < FIRST_BLOCK) :: e[b] == d[b]
    ensures |meta| == FIRST_BLOCK * BLOCK_SIZE && (forall b: nat | b < FIRST_BLOCK :: Chunk(meta, b) == e[b])
    ensures Records(meta, files) && LittleWord(meta, 0x1_0008) == WordAt(d[SUPER_BLOCK], 2)
  {
    hide WithRecords, Records, FetchInode, WordAt, LittleWord;
    RecordsWritten(d, files, |files|);
    e := WithRecords(d, files, |files|);
    meta := Front(e);
    RecordsHold(e, meta, files);
    MetaWord(e, meta, SUPER_BLOCK, 2);
  }

  // ---------- what goes wrong otherwise ----------

  /** Appending to a file of one to nine whole blocks overwrites the first block of its neighbour. */
  lemma NeighbourOverwritten(d: Disk, files: seq<File>, i: nat, j: nat, data: Block)
    requires Packable(files) && i < j < |files| && Surplus(|files[i]|) && |files[i]| < NUM_DIRECT * BLOCK_SIZE
    requires files[j] != [] && Start(files, j) == Start(files, i + 1)
    ensures var fs, k := Booted(d, files), |files[i]| / BLOCK_SIZE;
      fs.vol.nBlocks + 3 <= DISK_BLOCKS ==> k < MAX_BLOCKS && Content(WriteOneFS(fs, i, k, data), j, 0) == data
  {
    SurplusSlot(d, files, i);
    FirstSlot(d, files, j);
    Fits(files, j);
    hide WordAt, PackedTable;
  }

  /** An image of two files, 1024 bytes and one byte, on which a one-block append to the first destroys the second. */
  lemma TwoFiles() returns (d: Disk, meta: seq<Byte>, files: seq<File>)
    ensures OnImage(d, meta, files) && |files| == 2 && |files[0]| == 1024 && files[1] == [7]
    ensures !Inv(Booted(d, files))
    ensures Content(Booted(d, files), 1, 0) == Padded([7]) != ZeroBlock()
    ensures Content(WriteOneFS(Booted(d, files), 0, 1, ZeroBlock()), 1, 0) == ZeroBlock()
  {
    hide Inv, Ptr, WriteOne, Holds, PackedTable, Body, WordAt, TotalBlocks, Padded, EnsureSlot, Records, WithRecords,
      FetchInode;
    files := [ZeroBlock(), [7]];
    TwoStarts(files);
    var zero: Disk := seq<Block>(DISK_BLOCKS, i => ZeroBlock());
    d := zero[1090 := Padded([7])][SUPER_BLOCK := PutWord(ZeroBlock(), 2, 1091)];
    d, meta := Sealed(d, files);
    TwoFilesHold(d, meta, files);
    SurplusBreaks(d, files, 0);
    FirstSlot(d, files, 1);
    PaddedSeven();
    NeighbourOverwritten(d, files, 0, 1, ZeroBlock());
  }

  lemma TwoStarts(files: seq<File>)
    requires files == [ZeroBlock(), [7]]
    ensures Packable(files) && Start(files, 0) == 1089 && Start(files, 1) == 1090 && Start(files, 2) == 1091
  {
    assert TotalBlocks(1) == 1 && TotalBlocks(1024) == 1;
    assert Start(files, 1) == 1090;
  }

  lemma PaddedSeven()
    ensures |Padded([7])| == BLOCK_SIZE && Padded([7]) != ZeroBlock() && WordAt(Padded([7]), 0) == 7
  {
    assert Padded([7])[0] == 7;
  }

  function Front(d: Disk): (meta: seq<Byte>)
    ensures |meta| == FIRST_BLOCK * BLOCK_SIZE && forall b: nat | b < FIRST_BLOCK :: Chunk(meta, b) == d[b]
  {
    var meta := seq<Byte>(FIRST_BLOCK * BLOCK_SIZE,
      i requires 0 <= i < FIRST_BLOCK * BLOCK_SIZE => d[i / BLOCK_SIZE][i % BLOCK_SIZE]);
    assert forall b: nat | b < FIRST_BLOCK :: Chunk(meta, b) == d[b];
    meta
  }

  lemma TwoFilesHold(d: Disk, meta: seq<Byte>, files: seq<File>)
    requires files == [ZeroBlock(), [7]] && Packable(files) && |meta| == FIRST_BLOCK * BLOCK_SIZE
    requires forall b: nat | b < FIRST_BLOCK :: Chunk(meta, b) == d[b]
    requires d[1089] == ZeroBlock() && d[1090] == Padded([7])
    ensures Holds(d, meta + Body(files, 2))
  {
  }

  // ---------- the end of the inode table ----------

  /** The disk after an inode has been stored. */
  function Stored(fs: FS, x: Inode, number: nat): (r: FS)
    requires InTable(number)
    ensures r.tables == fs.tables
  {
    fs.(vol := fs.vol.(disk := WriteInode(fs.vol.disk, x, number)))
  }

  /** The last sixteen inodes of the table lie in the first block of the first file. */
  lemma InodeOverwrites(d: Disk, files: seq<File>, i: nat, x: Inode, number: nat)
    requires Packable(files) && i < |files| && files[i] != [] && Start(files, i) == FIRST_BLOCK
    requires InTable(number) && number >= SAFE_INODES
    ensures Content(Booted(d, files), i, 0) == d[FIRST_BLOCK]
    ensures Content(Stored(Booted(d, files), x, number), i, 0) ==
      PutWords(d[FIRST_BLOCK], InodeWord(number), InodeWords(x))
    ensures (exists k: nat :: k < WORDS_PER_INODE && WordAt(d[FIRST_BLOCK], InodeWord(number) + k) != InodeWords(x)[k])
      ==> Content(Stored(Booted(d, files), x, number), i, 0) != Content(Booted(d, files), i, 0)
  {
    FirstSlot(d, files, i);
    TableBelowFiles(number);
    InodeBlockLast(number);
    FirstContent(Booted(d, files), i);
    FirstContent(Stored(Booted(d, files), x, number), i);
    hide WordAt, PutWord, PutWords, InodeBlock, InodeWord, PackedTable, Start, Packable, Content;
    var b, w := PutWords(d[FIRST_BLOCK], InodeWord(number), InodeWords(x)), InodeWord(number);
    assert forall k: nat | k < WORDS_PER_INODE :: WordAt(b, w + k) == InodeWords(x)[k];
  }

  lemma FirstContent(fs: FS, f: nat)
    requires f in fs.tables && fs.tables[f][0] == FIRST_BLOCK
    ensures Content(fs, f, 0) == fs.vol.disk[FIRST_BLOCK]
  {
  }

  lemma InodeBlockLast(number: nat)
    requires InTable(number) && number >= SAFE_INODES
    ensures InodeBlock(number) == FIRST_BLOCK
  {
  }

  /** An image of one file of one byte, which inode 8176 overwrites. */
  lemma LastInodes() returns (d: Disk, meta: seq<Byte>, files: seq<File>)
    ensures OnImage(d, meta, files) && files == [[7]] && Inv(Booted(d, files))
    ensures Content(Booted(d, files), 0, 0) == Padded([7])
    ensures forall x: Inode | x.kind != 7 :: Content(Stored(Booted(d, files), x, SAFE_INODES), 0, 0) != Padded([7])
  {
    hide Inv, Holds, PackedTable, Body, TotalBlocks, Padded, Content, WordAt, Stored, Surplus, Records, WithRecords,
      FetchInode;
    files := [[7]];
    OneStart(files);
    var zero: Disk := seq<Block>(DISK_BLOCKS, i => ZeroBlock());
    PaddedSeven();
    d := zero[FIRST_BLOCK := Padded([7])][SUPER_BLOCK := PutWord(ZeroBlock(), 2, 1090)];
    d, meta := Sealed(d, files);
    OneFileHolds(d, meta, files);
    ImageInv(d, meta, files);
    FirstByte(d, files);
    forall x: Inode | x.kind != 7 ensures Content(Stored(Booted(d, files), x, SAFE_INODES), 0, 0) != Padded([7]) {
      KindOverwrites(d, files, x);
    }
  }

  lemma FirstByte(d: Disk, files: seq<File>)
    requires files == [[7]] && Packable(files) && Start(files, 0) == FIRST_BLOCK
    ensures Content(Booted(d, files), 0, 0) == d[FIRST_BLOCK]
  {
    hide PackedTable, Packable, Start;
    FirstSlot(d, files, 0);
    FirstContent(Booted(d, files), 0);
  }

  lemma KindOverwrites(d: Disk, files: seq<File>, x: Inode)
    requires files == [[7]] && Packable(files) && Start(files, 0) == FIRST_BLOCK
    requires WordAt(d[FIRST_BLOCK], 0) == 7 != x.kind
    ensures Content(Stored(Booted(d, files), x, SAFE_INODES), 0, 0) != d[FIRST_BLOCK]
  {
    hide WordAt, PutWords, PackedTable, Start, Packable, Content, Stored;
    InodeOverwrites(d, files, 0, x, SAFE_INODES);
    assert WordAt(d[FIRST_BLOCK], InodeWord(SAFE_INODES) + 0) != InodeWords(x)[0];
  }

  lemma OneStart(files: seq<File>)
    requires files == [[7]]
    ensures Packable(files) && Start(files, 0) == 1089 && Start(files, 1) == 1090 && !Surplus(|files[0]|)
  {
    assert TotalBlocks(1) == 1;
  }

  lemma OneFileHolds(d: Disk, meta: seq<Byte>, files: seq<File>)
    requires files == [[7]] && Packable(files) && |meta| == FIRST_BLOCK * BLOCK_SIZE
    requires forall b: nat | b < FIRST_BLOCK :: Chunk(meta, b) == d[b]
    requires d[1089] == Padded([7])
    ensures Holds(d, meta + Body(files, 1))
  {
  }
}
