/** The inode table on the disk: 64-byte records, eight to a 512-byte sector. */
module Inodes {
  import opened Blocks
  import opened BlockMap

  const SECTOR_SIZE := 512
  const INODE_SIZE := 64
  const WORDS_PER_INODE := 16
  // superblock offset, its block, the two bit maps (both sizes as the source rounds them)
  const INODE_TABLE := ((0x1_0000 + 1024 + 0xFFFF_FFFF / 1024 / 8 + 8192 * 64 / 1024 / 8) / 1024 + 1) * 1024
  // inodes from here on would share the first file block of a packed image
  const SAFE_INODES := 8176

  datatype Inode = Inode(kind: Word, size: Word, blocks: Table)

  /** The record's words: type, size, the thirteen pointers and the reserved word. */
  function InodeWords(x: Inode): (ws: seq<Word>)
    ensures |ws| == WORDS_PER_INODE
  {
    [x.kind, x.size] + x.blocks + [0]
  }

  /** Copies words into a block, as `memcpy` into the sector buffer does. */
  function PutWords(b: Block, off: nat, ws: seq<Word>): (r: Block)
    requires off + |ws| <= PTRS_PER_BLOCK
    ensures forall k: nat | k < PTRS_PER_BLOCK ::
      WordAt(r, k) == if off <= k < off + |ws| then ws[k - off] else WordAt(b, k)
    decreases |ws|
  {
    if ws == [] then b
    else
      var n := |ws| - 1;
      PutWord(PutWords(b, off, ws[..n]), off + n, ws[n])
  }

  // MAX_INODES
  predicate InTable(number: nat) { number < 8192 }

  /** Sector number the drive is sent to: a byte offset, divided with truncation. */
  function InodeSector(number: nat): nat { (INODE_TABLE + number * INODE_SIZE) / SECTOR_SIZE }

  function InodeBlock(number: nat): (b: nat)
    requires InTable(number)
    ensures b < DISK_BLOCKS
  {
    InodeSector(number) / 2
  }

  /** First word of the record inside its block: half block by sector, then `number % 8`. */
  function InodeWord(number: nat): (w: nat)
    ensures w + WORDS_PER_INODE <= PTRS_PER_BLOCK
  {
    InodeSector(number) % 2 * 128 + number % 8 * WORDS_PER_INODE
  }

  function WriteInode(d: Disk, x: Inode, number: nat): Disk
    requires InTable(number)
  {
    d[InodeBlock(number) := PutWords(d[InodeBlock(number)], InodeWord(number), InodeWords(x))]
  }

  function FetchInode(d: Disk, number: nat): Inode
    requires InTable(number)
  {
    var b, w := d[InodeBlock(number)], InodeWord(number);
    Inode(WordAt(b, w), WordAt(b, w + 1), ReadWords(b, w + 2, 13))
  }

  function ReadWords(b: Block, off: nat, n: nat): (ws: seq<Word>)
    requires off + n <= PTRS_PER_BLOCK
    ensures |ws| == n && forall i: nat | i < n :: ws[i] == WordAt(b, off + i)
  {
    if n == 0 then [] else ReadWords(b, off, n - 1) + [WordAt(b, off + n - 1)]
  }

  /** Records lie one after another, each at 64 times its number behind the start of the table, although the seek
      truncates to a sector. */
  lemma InodePlace(number: nat, k: nat)
    requires InTable(number) && k < WORDS_PER_INODE
    ensures InodeBlock(number) * BLOCK_SIZE + 4 * (InodeWord(number) + k) == 591872 + 64 * number + 4 * k
  {
    assert InodeSector(number) == 1156 + number / 8;
  }

  /** So a place in the table belongs to one record. */
  lemma RecordOf(number: nat, b: nat, w: nat)
    requires InTable(number) && b < DISK_BLOCKS && w < PTRS_PER_BLOCK
    ensures b == InodeBlock(number) && InodeWord(number) <= w < InodeWord(number) + WORDS_PER_INODE <==>
      591872 + 64 * number <= b * BLOCK_SIZE + 4 * w < 591872 + 64 * number + 64
  {
    hide InodeBlock, InodeWord;
    InodePlace(number, 0);
    var c, v := InodeBlock(number), InodeWord(number);
    if b < c {
      assert b * BLOCK_SIZE + 1024 <= c * BLOCK_SIZE;
    } else if b > c {
      assert c * BLOCK_SIZE + 1024 <= b * BLOCK_SIZE;
    } else {
      assert b * BLOCK_SIZE + 4 * v == 591872 + 64 * number;
    }
  }

  /** Storing an inode changes its sixteen words on the disk, given by their byte offset, and nothing else. */
  lemma StoredWords(d: Disk, x: Inode, number: nat, b: nat, w: nat)
    requires InTable(number) && b < DISK_BLOCKS && w < PTRS_PER_BLOCK
    ensures var k := (b * BLOCK_SIZE + 4 * w - 591872 - 64 * number) / 4;
      WordAt(WriteInode(d, x, number)[b], w) ==
        if !(591872 + 64 * number <= b * BLOCK_SIZE + 4 * w < 591872 + 64 * number + 64) then WordAt(d[b], w)
        else if k == 0 then x.kind
        else if k == 1 then x.size
        else if k < 15 then x.blocks[k - 2]
        else 0
  {
    RecordOf(number, b, w);
    if b == InodeBlock(number) && InodeWord(number) <= w < InodeWord(number) + WORDS_PER_INODE {
      InodePlace(number, w - InodeWord(number));
    }
    hide WordAt, PutWord, InodeBlock, InodeWord;
  }

  /** Different inodes live in different places although the seek truncates to a sector. */
  lemma PlacesApart(m: nat, n: nat)
    requires InTable(m) && InTable(n) && m != n && InodeBlock(m) == InodeBlock(n)
    ensures InodeWord(m) + WORDS_PER_INODE <= InodeWord(n) || InodeWord(n) + WORDS_PER_INODE <= InodeWord(m)
  {
    assert InodeSector(m) == 1156 + m / 8;
    assert InodeSector(n) == 1156 + n / 8;
  }

  /** A written inode is fetched back, and every other inode is unchanged. */
  lemma FetchAfterWrite(d: Disk, x: Inode, number: nat, other: nat)
    requires InTable(number) && InTable(other)
    ensures FetchInode(WriteInode(d, x, number), other) ==
      if other == number then x else FetchInode(d, other)
  {
    hide WordAt, PutWord, PutWords, ReadWords, InodeBlock, InodeWord;
    var b, w := WriteInode(d, x, number)[InodeBlock(number)], InodeWord(number);
    if other == number {
      forall i: nat | i < 16 ensures WordAt(b, w + i) == InodeWords(x)[i] {}
      assert FetchInode(WriteInode(d, x, number), other).blocks == x.blocks;
    } else {
      if InodeBlock(other) == InodeBlock(number) { PlacesApart(other, number); }
      assert FetchInode(WriteInode(d, x, number), other).blocks == FetchInode(d, other).blocks;
    }
  }

  /** The inode table stays below the first file block exactly for the first 8176 inodes;
      the last sixteen overlap it. */
  lemma TableBelowFiles(number: nat)
    requires InTable(number)
    ensures SUPER_BLOCK < InodeBlock(number)
    ensures InodeBlock(number) < FIRST_BLOCK <==> number < SAFE_INODES
  {
  }

  /** Writing metadata changes no pointer and no contents of any file. */
  lemma {:induction false} MetadataPtr(fs: FS, b: nat, data: Block, g: nat, u: Slot)
    requires Inv(fs) && b < FIRST_BLOCK && g in fs.tables && IsSlot(u)
    ensures SamePtr(fs, fs.(vol := fs.vol.(disk := fs.vol.disk[b := data])), g, u)
    decreases u
  {
    hide WordAt, PutWord, ZeroBlock;
    if u.Child? {
      MetadataPtr(fs, b, data, g, u.parent);
      assert InRange(fs, g, u.parent);
    }
  }

  lemma {:induction false} MetadataWriteOk(fs: FS, b: nat, data: Block)
    requires Inv(fs) && b < FIRST_BLOCK && b != SUPER_BLOCK
    ensures var fs' := fs.(vol := fs.vol.(disk := fs.vol.disk[b := data]));
      Inv(fs') && forall g, m: nat | g in fs.tables && m < MAX_BLOCKS :: Content(fs', g, m) == Content(fs, g, m)
  {
    hide Ptr, WordAt, PutWord, ZeroBlock;
    var fs' := fs.(vol := fs.vol.(disk := fs.vol.disk[b := data]));
    forall g, u | g in fs.tables && IsSlot(u) ensures SamePtr(fs, fs', g, u) && InRange(fs', g, u) {
      MetadataPtr(fs, b, data, g, u);
      assert InRange(fs, g, u);
    }
    forall g, u, h, w | g in fs.tables && h in fs.tables && IsSlot(u) && IsSlot(w)
      ensures Apart(fs', g, u, h, w)
    {
      assert SamePtr(fs, fs', g, u) && SamePtr(fs, fs', h, w) && Apart(fs, g, u, h, w);
    }
    forall g, m: nat | g in fs.tables && m < MAX_BLOCKS ensures Content(fs', g, m) == Content(fs, g, m) {
      assert SamePtr(fs, fs', g, LeafSlot(m)) && InRange(fs, g, LeafSlot(m));
    }
  }

  /** Writing back an inode below 8176 keeps the block map of every file. */
  lemma WriteInodeOk(fs: FS, x: Inode, number: nat)
    requires Inv(fs) && number < SAFE_INODES
    ensures var fs' := fs.(vol := fs.vol.(disk := WriteInode(fs.vol.disk, x, number)));
      Inv(fs') && forall g, m: nat | g in fs.tables && m < MAX_BLOCKS :: Content(fs', g, m) == Content(fs, g, m)
  {
    hide Inv, Content, PutWords, InodeWord, InodeBlock;
    TableBelowFiles(number);
    MetadataWriteOk(fs, InodeBlock(number),
      PutWords(fs.vol.disk[InodeBlock(number)], InodeWord(number), InodeWords(x)));
  }
}
