/**
 The tool that builds a disk image: what it writes for one file, and what the kernel's loader
 makes of it.
 */
module Packers {
  import opened Blocks
  import opened BlockMap
  import opened Inodes

  const FILE := 1

  function TotalBlocks(size: nat): nat { (size + BLOCK_SIZE - 1) / BLOCK_SIZE }

  function Zeros(n: nat): seq<Byte> { seq<Byte>(n, i => 0) }

  /** File contents with zeros up to the end of the last block. */
  function Padded(data: seq<Byte>): (p: seq<Byte>)
    ensures |p| == TotalBlocks(|data|) * BLOCK_SIZE && |data| <= |p| && p[..|data|] == data
  {
    data + Zeros(TotalBlocks(|data|) * BLOCK_SIZE - |data|)
  }

  /** A block of little-endian words, zero behind them. */
  function PointerBlock(ps: seq<Word>): (b: Block)
    requires |ps| <= PTRS_PER_BLOCK
    ensures forall i: nat | i < PTRS_PER_BLOCK :: WordAt(b, i) == if i < |ps| then ps[i] else 0
  {
    PutWords(ZeroBlock(), 0, ps)
  }

  function Consecutive(from: nat, n: nat): (ps: seq<Word>)
    requires from + n < DISK_BLOCKS
    ensures |ps| == n && forall i | 0 <= i < n :: ps[i] == from + i
  {
    seq<Word>(n, i requires 0 <= i < n => from + i)
  }

  /** More than ten whole blocks: the test for a pointer block. */
  predicate HasPointers(size: nat) { size / BLOCK_SIZE > NUM_DIRECT }

  /** The pointers of the first loop: one for every whole block, and one more. */
  function DirectTable(size: nat, first: nat): (t: Table)
    requires first + TotalBlocks(size) + 1 < DISK_BLOCKS
  {
    seq<Word>(13, k requires 0 <= k < 13 => if size == 0 || k > 10 || k > size / BLOCK_SIZE then 0 else first + k)
  }

  /** The inode pointers of a file of `size` bytes that starts at block `first`. */
  function PackedTable(size: nat, first: nat): (t: Table)
    requires first + TotalBlocks(size) + 1 < DISK_BLOCKS
  {
    if HasPointers(size) then DirectTable(size, first)[SINGLE := first + TotalBlocks(size)]
    else DirectTable(size, first)
  }

  /** What is written for a file. */
  function PackedBytes(data: seq<Byte>, first: nat): (b: seq<Byte>)
    requires first + TotalBlocks(|data|) + 1 < DISK_BLOCKS && TotalBlocks(|data|) <= NUM_DIRECT + PTRS_PER_BLOCK
    ensures |b| % BLOCK_SIZE == 0
  {
    var n := TotalBlocks(|data|);
    Padded(data) + if HasPointers(|data|) then PointerBlock(Consecutive(first + NUM_DIRECT, n - NUM_DIRECT)) else []
  }

  class Packer {
    var output: seq<Byte>
    var inodes: seq<Inode>

    constructor (start: seq<Byte>)
      ensures output == start && inodes == []
    {
      output, inodes := start, [];
    }

    method FillToBlock()
      modifies this`output
      ensures output == old(output) + Zeros(TotalBlocks(|old(output)|) * BLOCK_SIZE - |old(output)|)
    {
      var size := |output|;
      if size % BLOCK_SIZE == 0 {
        assert TotalBlocks(size) * BLOCK_SIZE == size;
        return;
      }
      var i := size;
      while i < (size / BLOCK_SIZE + 1) * BLOCK_SIZE
        invariant size <= i <= (size / BLOCK_SIZE + 1) * BLOCK_SIZE && output == old(output) + Zeros(i - size)
      {
        output := output + [0];
        i := i + 1;
      }
    }

    method WritePointerBlock(pointers: seq<Word>) returns (num: nat)
      requires |output| % BLOCK_SIZE == 0 && |pointers| <= PTRS_PER_BLOCK
      modifies this`output
      ensures num == |old(output)| / BLOCK_SIZE && output == old(output) + PointerBlock(pointers)
    {
      num := |output| / BLOCK_SIZE;
      output := output + PointerBlock(pointers);
    }

    /** Packs a file of at most 266 blocks; the result is its inode number. */
    method PackFile(data: seq<Byte>) returns (number: nat)
      requires |output| % BLOCK_SIZE == 0 && |output| / BLOCK_SIZE + TotalBlocks(|data|) + 1 < DISK_BLOCKS
      requires TotalBlocks(|data|) <= NUM_DIRECT + PTRS_PER_BLOCK
      modifies this
      ensures var first := |old(output)| / BLOCK_SIZE;
        && output == old(output) + PackedBytes(data, first)
        && inodes == old(inodes) + [Inode(FILE, |data|, PackedTable(|data|, first))]
        && number == |old(inodes)| && |output| % BLOCK_SIZE == 0
    {
      hide DirectTable, PointerBlock, Zeros, Consecutive;
      var size, first := |data|, |output| / BLOCK_SIZE;
      ghost var start := output;
      if size != 0 {
        output := output + data;
      }
      FillToBlock();
      Fills(start, data);
      hide Padded;
      var blocks := DirectPointers(size, first);
      if size / BLOCK_SIZE > 10 {
        var single := SinglePointers(first, TotalBlocks(size));
        var num := WritePointerBlock(single);
        blocks := blocks[10 := num];
        assert start + Padded(data) + PointerBlock(single) == start + (Padded(data) + PointerBlock(single));
      } else {
        assert Padded(data) + [] == Padded(data);
      }
      number := |inodes|;
      inodes := inodes + [Inode(FILE, size, blocks)];
    }
  }

  method DirectPointers(size: nat, first: nat) returns (blocks: Table)
    requires first + TotalBlocks(size) + 1 < DISK_BLOCKS
    ensures blocks == DirectTable(size, first)
  {
    blocks := seq<Word>(13, i => 0);
    if size != 0 {
      blocks := blocks[0 := first];
    }
    var i := 1;
    while i < size / BLOCK_SIZE + 1 && i <= 10
      invariant 1 <= i <= 11 && i <= size / BLOCK_SIZE + 1
      invariant forall k | 0 <= k < 13 :: blocks[k] == if size == 0 then 0 else if k < i then first + k else 0
    {
      blocks := blocks[i := blocks[0] + i];
      i := i + 1;
    }
  }

  method SinglePointers(first: nat, total: nat) returns (single: seq<Word>)
    requires 10 < total <= 266 && first + total + 1 < DISK_BLOCKS
    ensures single == Consecutive(first + NUM_DIRECT, total - NUM_DIRECT) && single != []
  {
    single := [];
    var i := 10;
    while i < (if total < 266 then total else 266)
      invariant 10 <= i <= total && single == Consecutive(first + 10, i - 10)
    {
      single := single + [first + i];
      i := i + 1;
    }
  }

  lemma Fills(start: seq<Byte>, data: seq<Byte>)
    requires |start| % BLOCK_SIZE == 0
    ensures start + Padded(data) == (start + data) + Zeros(TotalBlocks(|start + data|) * BLOCK_SIZE - |start + data|)
    ensures data == [] ==> start + Padded(data) == start + Zeros(TotalBlocks(|start|) * BLOCK_SIZE - |start|)
  {
    var n := |start| / BLOCK_SIZE;
    assert TotalBlocks(|start| + |data|) == n + TotalBlocks(|data|);
  }

  // ---------- reading the image ----------

  /** The disk holds the image; what follows it does not matter. */
  ghost predicate Holds(d: Disk, image: seq<Byte>) {
    |image| <= DISK_BLOCKS * BLOCK_SIZE
    && forall b: nat | (b + 1) * BLOCK_SIZE <= |image| :: d[b] == Chunk(image, b)
  }

  /** Sizes for which the eleventh block exists but no pointer block is written. */
  predicate Forgotten(size: nat) { 10 * BLOCK_SIZE < size < 11 * BLOCK_SIZE }

  lemma DataChunk(d: Disk, before: seq<Byte>, data: seq<Byte>, after: seq<Byte>, n: nat)
    requires |before| % BLOCK_SIZE == 0 && Holds(d, before + Padded(data) + after) && n < TotalBlocks(|data|)
    ensures var b := |before| / BLOCK_SIZE + n; b < DISK_BLOCKS && d[b] == Chunk(Padded(data), n)
  {
    var image, b := before + Padded(data) + after, |before| / BLOCK_SIZE + n;
    assert (b + 1) * BLOCK_SIZE <= |before| + |Padded(data)|;
    assert Chunk(image, b) == Chunk(Padded(data), n);
  }

  lemma PointerChunk(d: Disk, before: seq<Byte>, data: seq<Byte>, ps: Block, after: seq<Byte>)
    requires |before| % BLOCK_SIZE == 0 && Holds(d, before + (Padded(data) + ps) + after)
    ensures var b := |before| / BLOCK_SIZE + TotalBlocks(|data|); b < DISK_BLOCKS && d[b] == ps
  {
    var image, b := before + (Padded(data) + ps) + after, |before| / BLOCK_SIZE + TotalBlocks(|data|);
    assert b * BLOCK_SIZE == |before| + |Padded(data)|;
    assert (b + 1) * BLOCK_SIZE <= |image|;
    assert Chunk(image, b) == ps;
  }

  /** A packed file is on the disk, behind `before`. */
  ghost predicate OnDisk(d: Disk, before: seq<Byte>, data: seq<Byte>, after: seq<Byte>) {
    && |before| % BLOCK_SIZE == 0 && |before| > 0 && TotalBlocks(|data|) <= NUM_DIRECT + PTRS_PER_BLOCK
    && |before| / BLOCK_SIZE + TotalBlocks(|data|) + 1 < DISK_BLOCKS
    && Holds(d, before + PackedBytes(data, |before| / BLOCK_SIZE) + after)
  }

  /** Where the pointer block of a packed file is. */
  lemma PackedPointers(d: Disk, before: seq<Byte>, data: seq<Byte>, after: seq<Byte>)
    requires OnDisk(d, before, data, after) && HasPointers(|data|)
    ensures var first, total := |before| / BLOCK_SIZE, TotalBlocks(|data|);
      d[first + total] == PointerBlock(Consecutive(first + NUM_DIRECT, total - NUM_DIRECT))
  {
    hide Holds, PointerBlock, Consecutive, Padded;
    var first, total := |before| / BLOCK_SIZE, TotalBlocks(|data|);
    PointerChunk(d, before, data, PointerBlock(Consecutive(first + NUM_DIRECT, total - NUM_DIRECT)), after);
  }

  lemma PackedData(d: Disk, before: seq<Byte>, data: seq<Byte>, after: seq<Byte>, n: nat)
    requires OnDisk(d, before, data, after) && n < TotalBlocks(|data|)
    ensures d[|before| / BLOCK_SIZE + n] == Chunk(Padded(data), n)
  {
    hide Holds, PointerBlock, Consecutive, Padded;
    var first := |before| / BLOCK_SIZE;
    var more :=
      if HasPointers(|data|) then PointerBlock(Consecutive(first + NUM_DIRECT, TotalBlocks(|data|) - NUM_DIRECT))
      else [];
    assert PackedBytes(data, first) == Padded(data) + more;
    assert before + (Padded(data) + more) + after == before + Padded(data) + (more + after);
    DataChunk(d, before, data, more + after, n);
  }

  /** The kernel finds block `n` of a packed file, for every size but the forgotten ones; there the
      eleventh block is looked up in the file's own data. */
  lemma PackedResolves(d: Disk, before: seq<Byte>, data: seq<Byte>, after: seq<Byte>, n: nat)
    requires OnDisk(d, before, data, after) && n < TotalBlocks(|data|)
    ensures var first := |before| / BLOCK_SIZE;
      Resolve(d, PackedTable(|data|, first), n) ==
        if Forgotten(|data|) && n == 10 then WordAt(Chunk(Padded(data), 10), 0) else first + n
  {
    hide WordAt, Holds, Padded, PackedBytes, Chunk, PointerBlock, Consecutive;
    if n >= NUM_DIRECT {
      if HasPointers(|data|) {
        PackedPointers(d, before, data, after);
      } else {
        PackedData(d, before, data, after, 10);
      }
    }
  }

  /** Loading a whole packed file returns its bytes, block by block. */
  lemma PackedLoads(d: Disk, before: seq<Byte>, data: seq<Byte>, after: seq<Byte>, buf: seq<Byte>)
    requires OnDisk(d, before, data, after) && !Forgotten(|data|) && |buf| == TotalBlocks(|data|) * BLOCK_SIZE
    ensures LoadFrom(d, PackedTable(|data|, |before| / BLOCK_SIZE), buf, 0, 0, TotalBlocks(|data|)) ==
      (true, Padded(data))
  {
    hide LoadFrom, PackedTable, Padded, OnDisk;
    assert |before| / BLOCK_SIZE + TotalBlocks(|data|) + 1 < DISK_BLOCKS by { OnDiskFits(d, before, data, after); }
    LoadPacked(d, before, data, after, buf, 0);
    var out := LoadFrom(d, PackedTable(|data|, |before| / BLOCK_SIZE), buf, 0, 0, TotalBlocks(|data|)).1;
    SameChunks(out, Padded(data), TotalBlocks(|data|));
  }

  lemma OnDiskFits(d: Disk, before: seq<Byte>, data: seq<Byte>, after: seq<Byte>)
    requires OnDisk(d, before, data, after)
    ensures |before| % BLOCK_SIZE == 0 && |before| / BLOCK_SIZE > 0 &&
      TotalBlocks(|data|) <= NUM_DIRECT + PTRS_PER_BLOCK
    ensures |before| / BLOCK_SIZE + TotalBlocks(|data|) + 1 < DISK_BLOCKS
  {
  }

  lemma SameChunks(a: seq<Byte>, b: seq<Byte>, n: nat)
    requires |a| == |b| == n * BLOCK_SIZE && forall m: nat | m < n :: Chunk(a, m) == Chunk(b, m)
    ensures a == b
  {
    forall k | 0 <= k < |a| ensures a[k] == b[k] {
      var m := k / BLOCK_SIZE;
      assert Chunk(a, m)[k % BLOCK_SIZE] == a[k] && Chunk(b, m)[k % BLOCK_SIZE] == b[k];
    }
  }

  lemma {:induction false} LoadPacked(d: Disk, before: seq<Byte>, data: seq<Byte>, after: seq<Byte>, buf: seq<Byte>,
      i: nat)
    requires OnDisk(d, before, data, after) && !Forgotten(|data|) && |buf| == TotalBlocks(|data|) * BLOCK_SIZE
    requires i <= TotalBlocks(|data|)
    ensures var (ok, out) := LoadFrom(d, PackedTable(|data|, |before| / BLOCK_SIZE), buf, 0, i, TotalBlocks(|data|));
      ok && out[..i * BLOCK_SIZE] == buf[..i * BLOCK_SIZE]
      && forall m: nat | i <= m < TotalBlocks(|data|) :: Chunk(out, m) == Chunk(Padded(data), m)
    decreases TotalBlocks(|data|) - i
  {
    hide Resolve, Chunk, Splice, OnDisk, PackedTable, BlockNumber, Padded;
    OnDiskFits(d, before, data, after);
    var first, total := |before| / BLOCK_SIZE, TotalBlocks(|data|);
    var t := PackedTable(|data|, first);
    if i < total {
      BlockNumberIs(0, i, total);
      PackedResolves(d, before, data, after, i);
      PackedData(d, before, data, after, i);
      var buf1 := Splice(buf, i * BLOCK_SIZE, d[first + i]);
      SpliceChunk(buf, i, d[first + i]);
      LoadPacked(d, before, data, after, buf1, i + 1);
      ChunkOfPrefix(LoadFrom(d, t, buf, 0, i, total).1, buf1, i);
    }
  }

  /** A file of whole blocks gets one pointer too many, and it names the first block of the file
      packed next; other sizes get exactly their blocks. */
  lemma SurplusPointer(size: nat, first: nat)
    requires first > 0 && first + TotalBlocks(size) + 1 < DISK_BLOCKS && 0 < size && TotalBlocks(size) <= 10
    ensures PackedTable(size, first)[TotalBlocks(size)] ==
      (if size % BLOCK_SIZE == 0 then first + TotalBlocks(size) else 0)
    ensures forall k | 0 <= k < TotalBlocks(size) :: PackedTable(size, first)[k] == first + k
  {
  }
}