/**
 Reading and writing an open file through its five-block window.  The file behind the
 pointers is one byte sequence; the window caches part of it.
 */
module FileHandle {
  import opened Blocks
  import opened BlockMap
  import opened Inodes
  import opened Volumes

  const WINDOW_BLOCKS := 5
  const WINDOW := 5120
  // a window starting inside the file never reaches the triple-indirect range
  const MAX_SIZE := (MAX_BLOCKS - WINDOW_BLOCKS) * BLOCK_SIZE

  /** Every block that holds a byte of the file exists. */
  ghost predicate Allocated(fs: FS, f: nat, size: nat)
    requires f in fs.tables
  {
    size <= MAX_SIZE && forall n: nat | n < MAX_BLOCKS && n * BLOCK_SIZE < size :: Content(fs, f, n) != []
  }

  ghost function FileByte(fs: FS, f: nat, size: nat, i: nat): Byte
    requires f in fs.tables && Allocated(fs, f, size) && i < size
  {
    Content(fs, f, i / BLOCK_SIZE)[i % BLOCK_SIZE]
  }

  /** The file as the byte sequence it stands for. */
  ghost function Bytes(fs: FS, f: nat, size: nat): (s: seq<Byte>)
    requires f in fs.tables && Allocated(fs, f, size)
    ensures |s| == size
  {
    seq(size, i requires 0 <= i < size => FileByte(fs, f, size, i))
  }

  /** The window holds the file's bytes as far as the file goes. */
  ghost predicate Mirrors(fs: FS, f: nat, size: nat, low: nat, data: seq<Byte>)
    requires f in fs.tables && Allocated(fs, f, size) && |data| == WINDOW
  {
    forall i: nat | low <= i < low + WINDOW && i < size :: data[i - low] == Bytes(fs, f, size)[i]
  }

  /** A byte sequence with some bytes replaced and the end moved out if need be. */
  function Overwrite(s: seq<Byte>, pos: nat, b: seq<Byte>): (r: seq<Byte>)
    requires pos <= |s|
    ensures |r| == if pos + |b| > |s| then pos + |b| else |s|
    ensures forall i: nat | i < |r| :: r[i] == if pos <= i < pos + |b| then b[i - pos] else s[i]
  {
    s[..pos] + b + if pos + |b| <= |s| then s[pos + |b|..] else []
  }

  lemma OverwriteNothing(s: seq<Byte>)
    ensures Overwrite(s, 0, []) == s
  {
  }

  lemma OverwriteTwice(s: seq<Byte>, a: seq<Byte>, b: seq<Byte>)
    requires |a| <= |b|
    ensures Overwrite(Overwrite(s, 0, a), 0, b) == Overwrite(s, 0, b)
  {
  }

  /** A freshly loaded window mirrors the file. */
  lemma LoadMirrors(fs: FS, f: nat, size: nat, buf: seq<Byte>, pos: Word)
    requires Inv(fs) && f in fs.tables && Allocated(fs, f, size) && |buf| == WINDOW && pos <= size
    ensures var (ok, out) := LoadFrom(fs.vol.disk, fs.tables[f], buf, pos, 0, WINDOW_BLOCKS);
      && (pos < size ==> ok)
      && (ok <==> !NoBlock(Resolve(fs.vol.disk, fs.tables[f], pos / BLOCK_SIZE)))
      && Mirrors(fs, f, size, pos / BLOCK_SIZE * BLOCK_SIZE, out)
  {
    hide Inv, Content, Resolve, LoadFrom, BlockNumber, Chunk;
    var lo := pos / BLOCK_SIZE;
    var all := (size + BLOCK_SIZE - 1) / BLOCK_SIZE;
    var have := if all <= lo then 0 else if all - lo <= WINDOW_BLOCKS then all - lo else WINDOW_BLOCKS;
    LoadFromOk(fs, f, buf, pos, 0, have, WINDOW_BLOCKS);
    BlockNumberIs(pos, 0, WINDOW_BLOCKS);
    LoadSucceeds(fs.vol.disk, fs.tables[f], buf, pos, 0, WINDOW_BLOCKS);
    var (ok, out) := LoadFrom(fs.vol.disk, fs.tables[f], buf, pos, 0, WINDOW_BLOCKS);
    hide Bytes;
    forall i: nat | lo * BLOCK_SIZE <= i < lo * BLOCK_SIZE + WINDOW && i < size
      ensures out[i - lo * BLOCK_SIZE] == Bytes(fs, f, size)[i]
    {
      var m := i / BLOCK_SIZE;
      assert lo <= m < lo + have;
      BytesAt(fs, f, size, i);
      ChunkAt(out, lo, i);
      assert Chunk(out, m - lo) == Content(fs, f, m);
    }
  }

  lemma LoadSucceeds(d: Disk, t: Table, buf: seq<Byte>, pos: Word, i: nat, num: nat)
    requires i <= num && num * BLOCK_SIZE <= |buf|
    ensures LoadFrom(d, t, buf, pos, i, num).0 <==>
      i > 0 || num == 0 || !NoBlock(Resolve(d, t, BlockNumber(pos, i)))
    decreases num - i
  {
    hide Resolve, BlockNumber, Splice;
    if i < num && !NoBlock(Resolve(d, t, BlockNumber(pos, i))) {
      LoadSucceeds(d, t, Splice(buf, i * BLOCK_SIZE, d[Addr(Resolve(d, t, BlockNumber(pos, i)))]), pos, i + 1, num);
    }
  }

  /** Byte `i` of a window at `low` is the file's, or comes from `b` written at `pos`. */
  ghost predicate Patched(file: seq<Byte>, low: nat, data: seq<Byte>, pos: nat, b: seq<Byte>, i: nat)
    requires |data| == WINDOW && low <= i < low + WINDOW && (i < |file| || pos <= i < pos + |b|)
  {
    data[i - low] == if pos <= i < pos + |b| then b[i - pos] else file[i]
  }

  lemma ChunkAt(out: seq<Byte>, lo: nat, i: nat)
    requires lo * BLOCK_SIZE <= i && (i / BLOCK_SIZE - lo + 1) * BLOCK_SIZE <= |out|
    ensures Chunk(out, i / BLOCK_SIZE - lo)[i % BLOCK_SIZE] == out[i - lo * BLOCK_SIZE]
  {
  }

  lemma BytesAt(fs: FS, f: nat, size: nat, i: nat)
    requires f in fs.tables && Allocated(fs, f, size) && i < size
    ensures Bytes(fs, f, size)[i] == Content(fs, f, i / BLOCK_SIZE)[i % BLOCK_SIZE]
  {
  }

  /** Writing out a window that was a mirror and then patched overwrites the file. */
  lemma WriteOutWindow(fs: FS, fs': FS, f: nat, size: nat, size': nat, low: nat, num: nat,
                       data: seq<Byte>, pos: nat, b: seq<Byte>)
    requires f in fs.tables && f in fs'.tables && Allocated(fs, f, size) && |data| == WINDOW
    requires low % BLOCK_SIZE == 0 && low <= pos <= size && pos + |b| <= low + WINDOW
    requires size' == (if pos + |b| > size then pos + |b| else size) <= MAX_SIZE
    requires num <= WINDOW_BLOCKS && low <= MAX_SIZE
    requires num == WINDOW_BLOCKS || size' <= low + num * BLOCK_SIZE
    requires forall i: nat | low <= i < low + WINDOW && i < size' ::
      Patched(Bytes(fs, f, size), low, data, pos, b, i)
    requires forall m: nat | m < MAX_BLOCKS :: Written(fs, fs', f, data, low / BLOCK_SIZE, 0, num, f, m)
    ensures Allocated(fs', f, size') && Bytes(fs', f, size') == Overwrite(Bytes(fs, f, size), pos, b)
    ensures Mirrors(fs', f, size', low, data)
  {
    hide Content, Overwrite, Bytes;
    var lo := low / BLOCK_SIZE;
    forall n: nat | n < MAX_BLOCKS && n * BLOCK_SIZE < size' ensures Content(fs', f, n) != [] {
      assert Written(fs, fs', f, data, lo, 0, num, f, n);
    }
    var before, after := Bytes(fs, f, size), Bytes(fs', f, size');
    var over := Overwrite(before, pos, b);
    forall i: nat | i < size'
      ensures after[i] == (if pos <= i < pos + |b| then b[i - pos] else before[i]) == over[i]
      ensures low <= i < low + WINDOW ==> after[i] == data[i - low]
    {
      assert Written(fs, fs', f, data, lo, 0, num, f, i / BLOCK_SIZE);
      WindowByte(fs, fs', f, low, num, data, i);
      BytesAt(fs', f, size', i);
      if i < size { BytesAt(fs, f, size, i); }
      if low <= i < low + WINDOW {
        assert i < low + num * BLOCK_SIZE;
        assert Patched(before, low, data, pos, b, i);
      } else {
        assert i < size && !(pos <= i < pos + |b|);
      }
    }
    assert after == over;
  }

  /** One byte after the window's blocks were written. */
  lemma WindowByte(fs: FS, fs': FS, f: nat, low: nat, num: nat, data: seq<Byte>, i: nat)
    requires f in fs.tables && f in fs'.tables && |data| == WINDOW && num <= WINDOW_BLOCKS
    requires low % BLOCK_SIZE == 0 && i < MAX_SIZE
    requires Written(fs, fs', f, data, low / BLOCK_SIZE, 0, num, f, i / BLOCK_SIZE)
    ensures low <= i < low + num * BLOCK_SIZE ==>
      Content(fs', f, i / BLOCK_SIZE) != [] && Content(fs', f, i / BLOCK_SIZE)[i % BLOCK_SIZE] == data[i - low]
    ensures !(low <= i < low + num * BLOCK_SIZE) ==> Content(fs', f, i / BLOCK_SIZE) == Content(fs, f, i / BLOCK_SIZE)
  {
    hide Content;
    var m := i / BLOCK_SIZE;
    if low <= i < low + num * BLOCK_SIZE {
      assert Chunk(data, m - low / BLOCK_SIZE)[i % BLOCK_SIZE] == data[i - low];
    }
  }

  lemma MirrorsEmpty(fs: FS, f: nat, low: nat, data: seq<Byte>)
    requires f in fs.tables && Allocated(fs, f, 0) && |data| == WINDOW
    ensures Mirrors(fs, f, 0, low, data)
  {
  }

  /** What a file reads as depends on its blocks' contents only. */
  lemma SameBytes(fs: FS, fs': FS, f: nat, size: nat, low: nat, data: seq<Byte>)
    requires f in fs.tables && f in fs'.tables && Allocated(fs, f, size)
    requires |data| == WINDOW && Mirrors(fs, f, size, low, data)
    requires forall m: nat | m < MAX_BLOCKS :: Content(fs', f, m) == Content(fs, f, m)
    ensures Allocated(fs', f, size) && Bytes(fs', f, size) == Bytes(fs, f, size)
    ensures Mirrors(fs', f, size, low, data)
  {
    hide Content;
    forall n: nat | n < MAX_BLOCKS && n * BLOCK_SIZE < size ensures Content(fs', f, n) != [] {
      assert Content(fs', f, n) == Content(fs, f, n);
    }
  }

  lemma KeptAcross(fs: FS, fs1: FS, fs2: FS, f: nat, data: seq<Byte>, lo: nat, num: nat)
    requires fs1.tables.Keys == fs.tables.Keys == fs2.tables.Keys && num * BLOCK_SIZE <= |data|
    requires forall g, m: nat | g in fs.tables && m < MAX_BLOCKS :: Written(fs, fs1, f, data, lo, 0, num, g, m)
    requires forall g, m: nat | g in fs.tables && m < MAX_BLOCKS :: Content(fs2, g, m) == Content(fs1, g, m)
    ensures forall g, m: nat | g in fs.tables && g != f && m < MAX_BLOCKS :: Content(fs2, g, m) == Content(fs, g, m)
  {
    hide Content;
    forall g, m: nat | g in fs.tables && g != f && m < MAX_BLOCKS ensures Content(fs2, g, m) == Content(fs, g, m) {
      assert Written(fs, fs1, f, data, lo, 0, num, g, m);
    }
  }

  lemma BeyondKept(fs: FS, fs1: FS, fs2: FS, f: nat, data: seq<Byte>, lo: nat, num: nat)
    requires fs1.tables.Keys == fs.tables.Keys == fs2.tables.Keys && f in fs.tables && num * BLOCK_SIZE <= |data|
    requires forall g, m: nat | g in fs.tables && m < MAX_BLOCKS :: Written(fs, fs1, f, data, lo, 0, num, g, m)
    requires forall g, m: nat | g in fs.tables && m < MAX_BLOCKS :: Content(fs2, g, m) == Content(fs1, g, m)
    ensures forall m: nat | m < MAX_BLOCKS && !(lo <= m < lo + num) :: Content(fs2, f, m) == Content(fs, f, m)
  {
    hide Content;
    forall m: nat | m < MAX_BLOCKS && !(lo <= m < lo + num) ensures Content(fs2, f, m) == Content(fs, f, m) {
      assert Written(fs, fs1, f, data, lo, 0, num, f, m);
    }
  }

  /** The bytes that a round of a read copies, with `left` of them to go and `chunk` copied by the round before;
      the first round starts with all of them as its chunk. */
  function RoundSize(left: nat, chunk: nat): nat { if left > WINDOW then WINDOW else chunk }

  /** What is left to read then, an unsigned difference. */
  function RoundLeft(left: nat, chunk: nat): nat { (left - RoundSize(left, chunk)) % 0x1_0000_0000 }

  /** The rounds of a read of `left` bytes at `pos`: none asks for more than is left to read, which would make
      the count wrap around, and none runs past its window. */
  predicate RoundsFit(pos: nat, left: nat, chunk: nat)
    requires chunk > 0
    decreases left
  {
    left == 0 ||
    var c := RoundSize(left, chunk);
    c <= left && pos % BLOCK_SIZE + c <= WINDOW && RoundsFit(pos + c, left - c, c)
  }

  lemma RoundNext(pos: nat, left: nat, chunk: nat)
    requires chunk > 0 && left > 0 && RoundsFit(pos, left, chunk)
    ensures var c := RoundSize(left, chunk);
      0 < c <= left && pos % BLOCK_SIZE + c <= WINDOW && RoundsFit(pos + c, left - c, c) &&
        (left < 0x1_0000_0000 ==> RoundLeft(left, chunk) == left - c)
  {
  }

  /** A read of 6000 bytes: the second round copies 5120 where 880 are left, and the count of those left wraps. */
  lemma SixThousand(pos: nat)
    ensures !RoundsFit(pos, 6000, 6000)
    ensures RoundSize(6000, 6000) == 5120 && RoundLeft(6000, 6000) == 880
    ensures RoundSize(880, 5120) == 5120 > 880 && RoundLeft(880, 5120) == 0x1_0000_0000 - 4240
  {
    ReadableLengths(pos, 6000);
  }

  /** Exactly the reads that stay inside one window, or that are whole windows from a block boundary. */
  lemma {:induction false} ReadableLengths(pos: nat, len: nat)
    requires len > 0
    ensures RoundsFit(pos, len, len) <==>
      pos % BLOCK_SIZE + len <= WINDOW || (pos % BLOCK_SIZE == 0 && len % WINDOW == 0)
  {
    if len <= WINDOW {
      assert RoundsFit(pos + len, 0, len);
    } else {
      WholeWindows(pos, len, len);
    }
  }

  lemma {:induction false} WholeWindows(pos: nat, left: nat, chunk: nat)
    requires chunk > 0 && (left > WINDOW || chunk == WINDOW)
    ensures RoundsFit(pos, left, chunk) <==> left == 0 || (pos % BLOCK_SIZE == 0 && left % WINDOW == 0)
    decreases left
  {
    if left >= WINDOW {
      WholeWindows(pos + WINDOW, left - WINDOW, WINDOW);
    }
  }

  class OpenFile {
    const vol: Volume
    const number: nat  // the inode's number
    const kind: Word
    const blocks: array<Word>  // the inode's pointers
    var size: nat
    var position: nat
    var data: array?<Byte>
    var rangeLow: nat
    var rangeHigh: nat
    ghost var files: map<nat, Table>  // the pointers of every file on the volume

    ghost function Fs(): FS
      reads this, vol
    {
      FS(vol.State(), files)
    }

    ghost predicate Sound()
      reads this, vol, blocks
      ensures Sound() ==> position <= size <= MAX_SIZE
    {
      && number < SAFE_INODES && blocks.Length == 13
      && vol.Holds(files, number, blocks[..])
      && Allocated(Fs(), number, size) && position <= size <= MAX_SIZE
    }

    ghost predicate Valid()
      reads this, vol, blocks, data
      ensures Valid() ==> Sound() && data != null
    {
      && Sound()
      && data != null && data.Length == WINDOW
      && (rangeHigh == rangeLow == 0 ||
          (rangeLow % BLOCK_SIZE == 0 && rangeHigh == rangeLow + WINDOW && rangeLow <= size
           && Mirrors(Fs(), number, size, rangeLow, data[..])))
    }

    /** The file as this handle's users see it. */
    ghost function Contents(): (s: seq<Byte>)
      reads this, vol, blocks
      requires Sound()
      ensures |s| == size
    {
      Bytes(Fs(), number, size)
    }

    /** The window serves `n` bytes from the position on. */
    predicate Cached(n: nat)
      reads this
    {
      !(position + n > rangeHigh || position < rangeLow || rangeHigh == rangeLow)
    }

    /** fs_open */
    constructor (vol: Volume, number: nat, kind: Word, blocks: array<Word>, size: nat, ghost files: map<nat, Table>)
      requires number < SAFE_INODES && blocks.Length == 13 && vol.Holds(files, number, blocks[..])
      requires Allocated(FS(vol.State(), files), number, size)
      ensures Valid() && fresh(this.data) && position == 0 && this.files == files && this.size == size
      ensures this.vol == vol && this.blocks == blocks && this.number == number
    {
      this.vol, this.number, this.kind, this.blocks, this.size := vol, number, kind, blocks, size;
      this.files := files;
      position, rangeLow, rangeHigh := 0, 0, 0;
      data := new Byte[WINDOW];
    }

    /** Loads the window around the position; `false` leaves the range as it was. */
    method LoadWindow() returns (ok: bool)
      requires Valid()
      modifies this, data
      ensures data == old(data) && size == old(size) && position == old(position) && files == old(files)
      ensures ok <==> !NoBlock(Resolve(vol.disk, blocks[..], position / BLOCK_SIZE))
      ensures ok <==> !AtHole()
      ensures !ok ==> rangeLow == old(rangeLow) && rangeHigh == old(rangeHigh)
      ensures ok ==> Valid() && rangeHigh == rangeLow + WINDOW && rangeLow == position / BLOCK_SIZE * BLOCK_SIZE
    {
      hide Inv, Bytes, LoadFrom, Resolve;
      LoadMirrors(Fs(), number, size, data[..], position);
      HoleIs();
      ok := vol.LoadBlocks(data, blocks, position, WINDOW_BLOCKS);
      if ok {
        rangeLow := position / BLOCK_SIZE * BLOCK_SIZE;
        rangeHigh := rangeLow + WINDOW;
      }
    }

    /** How many bytes a read of `len` delivers. */
    function ReadLength(len: nat): nat
      reads this
    {
      if position >= size then 0 else if len + position > size then size - position else len
    }

    /** fs_read.  Reads that fit the window deliver the file's bytes. A read of several whole
        windows counts all of them but leaves only the last one in the buffer, because the
        copy never advances the destination. */
    method Read(buffer: array<Byte>, len: nat) returns (n: nat)
      requires Valid() && buffer != data && len <= buffer.Length
      requires ReadLength(len) > 0 ==> RoundsFit(position, ReadLength(len), ReadLength(len))
      modifies this, data, buffer
      ensures Valid() && data == old(data) && size == old(size) && files == old(files)
      ensures Contents() == old(Contents())
      ensures n == old(ReadLength(len)) && position == old(position) + n
      ensures var w := if n <= WINDOW then n else WINDOW;
        buffer[..] == Overwrite(old(buffer[..]), 0, Contents()[position - w..position])
    {
      hide Inv, Allocated, Bytes, Mirrors, Overwrite, Contents, Fs, RoundsFit, Valid, Sound;
      n := 0;
      OverwriteNothing(buffer[..]);
      if len == 0 || position >= size {
        assert Contents()[position - 0..position] == [];
        return;
      }
      var chunk := if len + position > size then size - position else len;
      ReadChunks(buffer, chunk);
      n := chunk;
    }

    /** The loop of a read: the first chunk is the whole length, which is right only for one window. */
    method ReadChunks(buffer: array<Byte>, total: nat)
      requires Valid() && buffer != data && total <= buffer.Length && 0 < total && position + total <= size
      requires RoundsFit(position, total, total)
      modifies this, data, buffer
      ensures Valid() && data == old(data) && size == old(size) && files == old(files)
      ensures Contents() == old(Contents()) && position == old(position) + total
      ensures var w := if total <= WINDOW then total else WINDOW;
        buffer[..] == Overwrite(old(buffer[..]), 0, Contents()[position - w..position])
    {
      hide Inv, Allocated, Bytes, Mirrors, Overwrite, Contents, Fs, RoundsFit, Valid, Sound;
      var chunk, remaining, n := total, total, 0;
      OverwriteNothing(buffer[..]);
      ghost var was, c, start := buffer[..], Contents(), position;
      assert c[position - 0..position] == [];
      while remaining > 0
        invariant Valid() && data == old(data) && size == old(size) && files == old(files) && Contents() == c
        invariant 0 <= remaining <= total && 0 < chunk && n == total - remaining && position == start + n <= size
        invariant RoundsFit(position, remaining, chunk)
        invariant if n == 0 then chunk == total else n >= chunk == if total <= WINDOW then total else WINDOW
        invariant buffer[..] == Overwrite(was, 0, c[position - (if n <= WINDOW then n else WINDOW)..position])
      {
        RoundNext(position, remaining, chunk);
        if remaining > WINDOW {
          chunk := WINDOW;
        }
        remaining := remaining - chunk;
        ghost var before := c[position - (if n <= WINDOW then n else WINDOW)..position];
        ReadWindow(buffer, chunk);
        n := n + chunk;
        OverwriteTwice(was, before, c[position - chunk..position]);
      }
    }

    /** One round of the read loop: loads the window if it does not cover the bytes, then
        copies them to the front of the buffer. */
    method ReadWindow(buffer: array<Byte>, n: nat)
      requires Valid() && buffer != data && n <= buffer.Length
      requires 0 < n && position + n <= size && position % BLOCK_SIZE + n <= WINDOW
      modifies this, data, buffer
      ensures Valid() && data == old(data) && size == old(size) && files == old(files)
      ensures position == old(position) + n && Contents() == old(Contents())
      ensures buffer[..] == Overwrite(old(buffer[..]), 0, Contents()[position - n..position])
    {
      hide Inv, Bytes, Mirrors, Resolve, Overwrite, Allocated;
      if !Cached(n) {
        var ok := LoadWindow();
      }
      CopyOut(buffer, n);
      position := position + n;
    }

    /** The copy loop of fs_read. */
    method CopyOut(buffer: array<Byte>, n: nat)
      requires Valid() && buffer != data && n <= buffer.Length
      requires rangeLow <= position && position + n <= rangeHigh && position + n <= size
      modifies buffer
      ensures Valid() && Contents() == old(Contents())
      ensures buffer[..] == Overwrite(old(buffer[..]), 0, Contents()[position..position + n])
    {
      hide Inv, Bytes, Content;
      ghost var was, c := buffer[..], Contents();
      for i := 0 to n
        invariant Contents() == c && Valid()
        invariant forall k | 0 <= k < buffer.Length :: buffer[k] == if k < i then c[position + k] else was[k]
      {
        buffer[i] := data[i + position - rangeLow];
      }
      assert buffer[..] == Overwrite(was, 0, c[position..position + n]);
    }

    /** The position is at the end of the file, at a block boundary, and the block that would follow has
        never been written and is reported missing. */
    ghost predicate AtHole()
      reads this, vol, blocks
      requires Sound()
    {
      && position == size && size % BLOCK_SIZE == 0 && Content(Fs(), number, size / BLOCK_SIZE) == []
      && NoBlock(MissingWord(vol.disk, blocks[..], size / BLOCK_SIZE))
    }

    lemma HoleIs()
      requires Sound()
      ensures NoBlock(Resolve(vol.disk, blocks[..], position / BLOCK_SIZE)) <==> AtHole()
    {
      hide Inv, Resolve, MissingWord, Content;
      var n := position / BLOCK_SIZE;
      if Content(Fs(), number, n) == [] {
        MissingBlocks(Fs(), number, n);
      } else {
        ContentResolves(Fs(), number, n);
      }
    }

    /** A write of `n` bytes finds its window: it is cached, the file is empty, or the
        first block it must load is there. */
    predicate Ready(n: nat)
      reads this, vol, blocks
      requires blocks.Length == 13
    {
      Cached(n) || size == 0 || !NoBlock(Resolve(vol.disk, blocks[..], position / BLOCK_SIZE))
    }

    /** The writes that fail, in the caller's terms: those at the end of a file of whole blocks that is not
        empty, outside the cached window, with no block there yet. */
    lemma FailsAtHole(n: nat)
      requires Sound()
      ensures !Ready(n) <==> !Cached(n) && size > 0 && AtHole()
    {
      hide Inv, Resolve, AtHole;
      HoleIs();
    }

    /** Outside the window this file keeps its blocks. */
    ghost predicate KeepsBeyond(was: FS)
      reads this, vol
    {
      && number in files && number in was.tables
      && forall m: nat | m < MAX_BLOCKS && !(rangeLow / BLOCK_SIZE <= m < rangeLow / BLOCK_SIZE + WINDOW_BLOCKS) ::
          Content(Fs(), number, m) == Content(was, number, m)
    }

    /** Files other than this one keep all their blocks. */
    ghost predicate KeepsOthers(was: FS)
      reads this, vol
    {
      && files.Keys == was.tables.Keys
      && forall g, m: nat | g in was.tables && g != number && m < MAX_BLOCKS ::
        Content(Fs(), g, m) == Content(was, g, m)
    }

    /** fs_write of bytes that fit the window.  It overwrites the file's bytes and may extend
        it, brings the inode on the disk up to date, and touches no other file; or, exactly
        when the window cannot be loaded, it drops the window and writes nothing. */
    method Write(buffer: array<Byte>, len: nat) returns (n: nat)
      requires Valid() && buffer != data && len <= buffer.Length
      requires position % BLOCK_SIZE + len <= WINDOW && position + len <= MAX_SIZE
      requires vol.nBlocks + 3 * WINDOW_BLOCKS <= DISK_BLOCKS
      modifies this, vol, blocks, data
      ensures KeepsOthers(old(Fs())) && vol.nBlocks <= old(vol.nBlocks) + 3 * WINDOW_BLOCKS
      ensures old(Ready(len)) ==>
        && n == len && Valid() && (data == old(data) || fresh(data)) && position == old(position) + n
        && Contents() == Overwrite(old(Contents()), old(position), old(buffer[..len]))
        && FetchInode(vol.disk, number) == Inode(kind, size, blocks[..]) && KeepsBeyond(old(Fs()))
        && rangeHigh == rangeLow + WINDOW
        && rangeLow == (if old(Cached(len)) then old(rangeLow) else old(position) / BLOCK_SIZE * BLOCK_SIZE)
      ensures old(Ready(len)) <==> old(Cached(len) || size == 0 || !AtHole())
      ensures !old(Ready(len)) ==>
        && n == 0 && data == null && Sound()
        && size == old(size) && position == old(position) && Fs() == old(Fs()) && blocks[..] == old(blocks[..])
        && rangeLow == old(rangeLow) && rangeHigh == old(rangeHigh)
    {
      hide Inv, Allocated, Bytes, Mirrors, Resolve, Overwrite, WriteFS, FetchInode, Content, AtHole, KeepsBeyond;
      FailsAtHole(len);
      if !Cached(len) {
        if size == 0 {
          data := new Byte[WINDOW];
          rangeLow := position / BLOCK_SIZE * BLOCK_SIZE;
          rangeHigh := rangeLow + WINDOW;
          MirrorsEmpty(Fs(), number, rangeLow, data[..]);
        } else {
          var ok := LoadWindow();
          if !ok {
            data := null;
            return 0;
          }
        }
      }
      Flush(buffer, len);
      n := len;
    }

    /** The rest of fs_write, from the copy loop to the write-back of the inode. */
    method Flush(buffer: array<Byte>, len: nat)
      requires Valid() && Cached(len) && buffer != data && len <= buffer.Length
      requires position + len <= MAX_SIZE && vol.nBlocks + 3 * WINDOW_BLOCKS <= DISK_BLOCKS
      modifies this, vol, blocks, data
      ensures KeepsOthers(old(Fs())) && vol.nBlocks <= old(vol.nBlocks) + 3 * WINDOW_BLOCKS
      ensures Valid() && data == old(data) && position == old(position) + len
      ensures Contents() == Overwrite(old(Contents()), old(position), old(buffer[..len]))
      ensures FetchInode(vol.disk, number) == Inode(kind, size, blocks[..])
      ensures KeepsBeyond(old(Fs())) && rangeLow == old(rangeLow) && rangeHigh == rangeLow + WINDOW
    {
      hide Inv, Allocated, Bytes, Overwrite, FetchInode, Content, KeepsBeyond;
      ghost var was, pos, b := size, position, buffer[..len];
      CopyIn(buffer, len);
      position := position + len;
      if position > size {
        size := position;
      }
      var num := WINDOW_BLOCKS;
      if num > size / BLOCK_SIZE + 1 {
        num := (size + BLOCK_SIZE - 1) / BLOCK_SIZE;
      }
      forall i: nat | rangeLow <= i < rangeLow + WINDOW && i < size
        ensures Patched(Bytes(Fs(), number, was), rangeLow, data[..], pos, b, i)
      {
        assert data[i - rangeLow] == if pos <= i < pos + len then buffer[i - pos] else old(data[..])[i - rangeLow];
      }
      WriteWindow(num, was, pos, b);
    }

    /** The copy loop of fs_write. */
    method CopyIn(buffer: array<Byte>, n: nat)
      requires data != null && data.Length == WINDOW && buffer != data && n <= buffer.Length
      requires rangeLow <= position && position + n <= rangeLow + WINDOW
      modifies data
      ensures data.Length == WINDOW && forall k | 0 <= k < WINDOW ::
        data[k] == if position <= k + rangeLow < position + n then buffer[k + rangeLow - position] else old(data[..])[k]
    {
      for i := 0 to n
        invariant forall k | 0 <= k < WINDOW ::
          data[k] ==
          if position <= k + rangeLow < position + i then buffer[k + rangeLow - position] else old(data[..])[k]
      {
        data[i + position - rangeLow] := buffer[i];
      }
    }

    /** Writes `num` blocks of the patched window and then the inode. */
    method WriteWindow(num: nat, ghost was: nat, ghost pos: nat, ghost b: seq<Byte>)
      requires number < SAFE_INODES && blocks.Length == 13 && vol.Holds(files, number, blocks[..])
      requires Allocated(Fs(), number, was) && vol.nBlocks + 3 * WINDOW_BLOCKS <= DISK_BLOCKS
      requires data != null && data.Length == WINDOW && rangeHigh == rangeLow + WINDOW
      requires rangeLow % BLOCK_SIZE == 0 && rangeLow <= pos <= was && pos + |b| <= rangeLow + WINDOW
      requires size == (if pos + |b| > was then pos + |b| else was) <= MAX_SIZE && position == pos + |b|
      requires num <= WINDOW_BLOCKS && (num == WINDOW_BLOCKS || size <= rangeLow + num * BLOCK_SIZE)
      requires forall i: nat | rangeLow <= i < rangeLow + WINDOW && i < size ::
        Patched(Bytes(Fs(), number, was), rangeLow, data[..], pos, b, i)
      modifies `files, vol, blocks
      ensures KeepsOthers(old(Fs())) && vol.nBlocks <= old(vol.nBlocks) + 3 * WINDOW_BLOCKS
      ensures Valid() && Contents() == Overwrite(old(Bytes(Fs(), number, was)), pos, b)
      ensures FetchInode(vol.disk, number) == Inode(kind, size, blocks[..]) && KeepsBeyond(old(Fs()))
    {
      hide Inv, Allocated, Bytes, Mirrors, Overwrite, WriteFrom, FetchInode, WriteInode, Content;
      ghost var fs, window := Fs(), data[..];
      vol.WriteBlocks(data, blocks, rangeLow, num, files, number);
      files := files[number := blocks[..]];
      ghost var fs1 := Fs();
      assert fs1 == WriteFS(fs, number, window, rangeLow, 0, num);
      WriteFromOk(fs, number, window, rangeLow, 0, num);
      WriteOutWindow(fs, fs1, number, was, size, rangeLow, num, window, pos, b);
      var x := Inode(kind, size, blocks[..]);
      vol.StoreInode(x, number);
      WriteInodeOk(fs1, x, number);
      FetchAfterWrite(fs1.vol.disk, x, number, number);
      SameBytes(fs1, Fs(), number, size, rangeLow, window);
      assert data[..] == window;
      KeptAcross(fs, fs1, Fs(), number, window, rangeLow / BLOCK_SIZE, num);
      BeyondKept(fs, fs1, Fs(), number, window, rangeLow / BLOCK_SIZE, num);
    }
  }

  // ---------- runs of calls on one handle ----------

  datatype Call = Read(len: nat) | Write(bytes: seq<Byte>)

  /** A plain byte sequence with a position, and what the reads so far returned. */
  datatype Plain = Plain(bytes: seq<Byte>, pos: nat, outs: seq<seq<Byte>>)

  predicate CallFits(s: Plain, c: Call) {
    s.pos <= |s.bytes| &&
    match c
    case Read(len) => s.pos % BLOCK_SIZE + (if s.pos + len > |s.bytes| then |s.bytes| - s.pos else len) <= WINDOW
    case Write(b) => s.pos % BLOCK_SIZE + |b| <= WINDOW && s.pos + |b| <= MAX_SIZE
  }

  function Step(s: Plain, c: Call): Plain
    requires s.pos <= |s.bytes|
  {
    match c
    case Read(len) =>
      var end := if s.pos + len > |s.bytes| then |s.bytes| else s.pos + len;
      Plain(s.bytes, end, s.outs + [s.bytes[s.pos..end]])
    case Write(b) => Plain(Overwrite(s.bytes, s.pos, b), s.pos + |b|, s.outs)
  }

  /** The calls, one after the other, on the plain byte sequence. */
  function Steps(s: Plain, calls: seq<Call>): (r: Plain)
    requires s.pos <= |s.bytes|
    ensures r.pos <= |r.bytes|
  {
    if calls == [] then s else Step(Steps(s, calls[..|calls| - 1]), calls[|calls| - 1])
  }

  predicate AllFit(s: Plain, calls: seq<Call>)
    requires s.pos <= |s.bytes|
  {
    forall k | 0 <= k < |calls| :: CallFits(Steps(s, calls[..k]), calls[k])
  }

  /** Any run of calls that each fit one window behaves as reads and writes of one growable
      byte sequence, up to a write whose window cannot be loaded, if there is one. */
  method Perform(file: OpenFile, calls: seq<Call>) returns (done: nat, outs: seq<seq<Byte>>)
    requires file.Valid() && AllFit(Plain(file.Contents(), file.position, []), calls)
    requires file.vol.nBlocks + 3 * WINDOW_BLOCKS * |calls| <= DISK_BLOCKS
    modifies file, file.vol, file.blocks, file.data
    ensures done <= |calls| && file.Sound()
    ensures Plain(file.Contents(), file.position, outs) ==
      Steps(old(Plain(file.Contents(), file.position, [])), calls[..done])
    ensures done < |calls| ==> calls[done].Write? && !file.Ready(|calls[done].bytes|) && file.size > 0 && file.AtHole()
    ensures file.KeepsOthers(old(file.Fs()))
  {
    hide Inv, Allocated, Bytes, Mirrors, Overwrite, FetchInode, Content, Resolve, CallFits, OpenFile.Valid,
      OpenFile.Sound, OpenFile.Contents, OpenFile.AtHole, OpenFile.Ready, Step;
    done, outs := 0, [];
    ghost var start := Plain(file.Contents(), file.position, []);
    assert calls[..0] == [];
    while done < |calls|
      invariant done <= |calls| && file.Valid() && (file.data == old(file.data) || fresh(file.data))
      invariant Plain(file.Contents(), file.position, outs) == Steps(start, calls[..done])
      invariant file.vol.nBlocks + 3 * WINDOW_BLOCKS * (|calls| - done) <= DISK_BLOCKS
      invariant file.KeepsOthers(old(file.Fs()))
    {
      assert calls[..done + 1][..done] == calls[..done];
      var ok := true;
      match calls[done] {
        case Read(len) =>
          var out := PerformRead(file, len, Steps(start, calls[..done]));
          outs := outs + [out];
        case Write(b) =>
          ok := PerformWrite(file, b, Steps(start, calls[..done]));
      }
      if !ok {
        return;
      }
      done := done + 1;
    }
    assert calls[..done] == calls;
  }

  lemma WithinWindow(pos: nat, len: nat)
    requires pos % BLOCK_SIZE + len <= WINDOW
    ensures len > 0 ==> RoundsFit(pos, len, len)
  {
    if len > 0 { ReadableLengths(pos, len); }
  }

  lemma OverwriteFront(s: seq<Byte>, b: seq<Byte>, n: nat)
    requires n == |b| <= |s|
    ensures Overwrite(s, 0, b)[..n] == b
  {
  }

  method PerformRead(file: OpenFile, len: nat, ghost s: Plain) returns (out: seq<Byte>)
    requires file.Valid() && s.bytes == file.Contents() && s.pos == file.position && CallFits(s, Read(len))
    modifies file, file.data
    ensures file.Valid() && file.data == old(file.data) && file.files == old(file.files)
    ensures Plain(file.Contents(), file.position, s.outs + [out]) == Step(s, Read(len))
  {
    hide Inv, Allocated, Bytes, Mirrors, FetchInode, Content, Resolve, RoundsFit, Overwrite, OpenFile.Valid,
      OpenFile.Sound, OpenFile.Contents;
    var buffer := new Byte[len];
    ghost var was := buffer[..];
    WithinWindow(file.position, file.ReadLength(len));
    var n := file.Read(buffer, len);
    OverwriteFront(was, file.Contents()[s.pos..s.pos + n], n);
    out := buffer[..n];
    assert out == file.Contents()[s.pos..s.pos + n];
  }

  method PerformWrite(file: OpenFile, b: seq<Byte>, ghost s: Plain) returns (ok: bool)
    requires file.Valid() && s.bytes == file.Contents() && s.pos == file.position && CallFits(s, Write(b))
    requires file.vol.nBlocks + 3 * WINDOW_BLOCKS <= DISK_BLOCKS
    modifies file, file.vol, file.blocks, file.data
    ensures file.Sound() && file.KeepsOthers(old(file.Fs()))
    ensures ok == old(file.Ready(|b|)) && file.vol.nBlocks <= old(file.vol.nBlocks) + 3 * WINDOW_BLOCKS
    ensures ok ==> file.Valid() && (file.data == old(file.data) || fresh(file.data))
    ensures ok ==> Plain(file.Contents(), file.position, s.outs) == Step(s, Write(b))
    ensures !ok ==> file.Contents() == s.bytes && file.position == s.pos && !file.Ready(|b|)
    ensures !ok ==> file.size > 0 && file.AtHole()
  {
    hide Inv, Allocated, Bytes, Mirrors, FetchInode, Content, Resolve, Overwrite;
    var buffer := new Byte[|b|](i requires 0 <= i < |b| => b[i]);
    assert buffer[..|b|] == b;
    ghost var ready := file.Ready(|b|);
    var n := file.Write(buffer, |b|);
    ok := file.data != null;
  }

  // ---------- inputs at which the original does not do what is asked ----------

  /** A new file of 5120 bytes cannot be appended to: the next write returns 0. */
  method AppendToWindow(file: OpenFile, bytes: array<Byte>, more: array<Byte>) returns (n1: nat, n2: nat)
    requires file.Valid() && file.size == file.position == file.rangeLow == file.rangeHigh == 0
    requires bytes.Length == WINDOW && more.Length == 1 && bytes != file.data && more != file.data
    requires forall k | 0 <= k < 13 :: file.blocks[k] == 0
    requires file.vol.nBlocks + 6 * WINDOW_BLOCKS <= DISK_BLOCKS
    modifies file, file.vol, file.blocks, file.data
    ensures n1 == WINDOW && n2 == 0 && file.size == WINDOW && file.data == null
  {
    NewFile(file);
    hide Inv, Resolve, Bytes, MissingWord, Overwrite, FetchInode, Allocated, Mirrors, Content;
    n1 := file.Write(bytes, WINDOW);
    SixthMissing(file);
    n2 := file.Write(more, 1);
  }

  lemma NewFile(file: OpenFile)
    requires file.Sound() && forall k | 0 <= k < 13 :: file.blocks[k] == 0
    ensures Content(file.Fs(), file.number, 5) == []
  {
  }

  lemma SixthMissing(file: OpenFile)
    requires file.Sound() && file.size == file.position == WINDOW && Content(file.Fs(), file.number, 5) == []
    ensures file.AtHole()
  {
  }

  /** A read of two windows leaves the second one where the first should be. */
  method ReadTwoWindows(file: OpenFile, buffer: array<Byte>) returns (n: nat)
    requires file.Valid() && file.position == 0 && file.size >= 2 * WINDOW
    requires buffer != file.data && buffer.Length == 2 * WINDOW && file.Contents()[0] != file.Contents()[WINDOW]
    modifies file, file.data, buffer
    ensures file.Sound() && file.size >= 2 * WINDOW
    ensures n == 2 * WINDOW && buffer[0] == file.Contents()[WINDOW] != file.Contents()[0]
  {
    ReadableLengths(0, 2 * WINDOW);
    n := file.Read(buffer, 2 * WINDOW);
  }
}
