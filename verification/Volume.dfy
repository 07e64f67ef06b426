/** The block loops of the driver, working in place on the disk and on an inode's pointers. */
module Volumes {
  import opened Blocks
  import opened BlockMap
  import opened Inodes

  lemma TableAddress(fs: FS, f: nat, p: Slot)
    requires Inv(fs) && f in fs.tables && IsSlot(p) && Ptr(fs.vol.disk, fs.tables[f], p) != 0
    ensures FIRST_BLOCK <= Ptr(fs.vol.disk, fs.tables[f], p) < fs.vol.nBlocks
  {
    assert InRange(fs, f, p);
  }

  class Volume {
    var disk: Disk
    var nBlocks: nat

    function State(): Vol
      reads this
    {
      Vol(disk, nBlocks)
    }

    /** `blocks` are the pointers of file `f`, and the volume with all files is sound. */
    ghost predicate Holds(files: map<nat, Table>, f: nat, blocks: seq<Word>)
      reads this
    {
      f in files && |blocks| == 13 && files[f] == blocks && Inv(FS(State(), files))
    }

    method AllocBlock() returns (block: Word)
      requires nBlocks < DISK_BLOCKS
      modifies this
      ensures block == old(nBlocks) && nBlocks == old(nBlocks) + 1
      ensures disk == old(disk)[SUPER_BLOCK := PutWord(old(disk)[SUPER_BLOCK], 2, nBlocks)]
    {
      block := nBlocks;
      nBlocks := nBlocks + 1;
      disk := disk[SUPER_BLOCK := PutWord(disk[SUPER_BLOCK], 2, nBlocks)];
    }

    /** Reads a pointer block, and if its entry is empty allocates a block for it and writes
        the pointer block back. */
    method EnsureEntry(table: Word, index: nat, ghost files: map<nat, Table>, ghost f: nat, ghost p: Slot)
      returns (entry: Word)
      requires f in files && Inv(FS(State(), files)) && nBlocks < DISK_BLOCKS
      requires IsTable(p) && IsSlot(p) && index < PTRS_PER_BLOCK
      requires table == Ptr(disk, files[f], p) != 0
      modifies this
      ensures var s := Child(p, index);
        (State(), files[f]) ==
          if Ptr(old(disk), files[f], s) == 0 then Grow(old(State()), files[f], s) else (old(State()), files[f])
      ensures Inv(FS(State(), files)) && entry == Ptr(disk, files[f], Child(p, index)) != 0
      ensures nBlocks <= old(nBlocks) + 1
    {
      hide WordAt, PutWord, ZeroBlock, Apart, InRange;
      ghost var fs := FS(State(), files);
      ghost var s := Child(p, index);
      TableAddress(fs, f, p);
      var ptrs := disk[Addr(table)];
      if WordAt(ptrs, index) == 0 {
        var block := AllocBlock();
        ptrs := PutWord(ptrs, index, block);
        disk := disk[Addr(table) := ptrs];
        GrowInv(fs, f, s);
        GrowPtr(fs, f, s, f, s);
        assert GrowFS(fs, f, s).tables == files;
      }
      entry := WordAt(ptrs, index);
    }

    /** Finds the real block of a logical block, allocating what is missing. */
    method RealBlock(blocks: array<Word>, n: nat, ghost files: map<nat, Table>, ghost f: nat)
      returns (realBlock: Word, ghost files': map<nat, Table>)
      requires blocks.Length == 13 && Holds(files, f, blocks[..]) && nBlocks + 3 <= DISK_BLOCKS
      modifies this, blocks
      ensures files' == files[f := blocks[..]] && Holds(files', f, blocks[..])
      ensures n >= MAX_BLOCKS ==> State() == old(State()) && blocks[..] == old(blocks[..]) && realBlock == 0xFFFF_FFFF
      ensures n < MAX_BLOCKS ==>
        && old(nBlocks) + Depth(LeafSlot(n)) <= DISK_BLOCKS
        && (State(), blocks[..]) == EnsureSlot(old(State()), old(blocks[..]), LeafSlot(n))
        && realBlock == Ptr(disk, blocks[..], LeafSlot(n))
    {
      hide WordAt, PutWord, ZeroBlock, Ptr, Inv;
      realBlock := 0xFFFF_FFFF;
      files' := files;
      if n < NUM_DIRECT {
        files' := EnsureRoot(blocks, n, files, f);
        realBlock := blocks[n];
      } else if n < NUM_DIRECT + PTRS_PER_BLOCK {
        var index := n - NUM_DIRECT;
        files' := EnsureRoot(blocks, SINGLE, files, f);
        realBlock := EnsureEntry(blocks[SINGLE], index, files', f, Root(SINGLE));
      } else if n < MAX_BLOCKS {
        var index := n - NUM_DIRECT - PTRS_PER_BLOCK;
        var l1, l2 := index / PTRS_PER_BLOCK, index % PTRS_PER_BLOCK;
        files' := EnsureRoot(blocks, DOUBLE, files, f);
        var single := EnsureEntry(blocks[DOUBLE], l1, files', f, Root(DOUBLE));
        realBlock := EnsureEntry(single, l2, files', f, Child(Root(DOUBLE), l1));
      }
    }

    /** Fills an empty inode pointer. */
    method EnsureRoot(blocks: array<Word>, k: nat, ghost files: map<nat, Table>, ghost f: nat)
      returns (ghost files': map<nat, Table>)
      requires blocks.Length == 13 && k <= DOUBLE && Holds(files, f, blocks[..]) && nBlocks < DISK_BLOCKS
      modifies this, blocks
      ensures files' == files[f := blocks[..]] && Holds(files', f, blocks[..])
      ensures (State(), blocks[..]) == EnsureSlot(old(State()), old(blocks[..]), Root(k))
      ensures Ptr(disk, blocks[..], Root(k)) == blocks[k] != 0 && nBlocks <= old(nBlocks) + 1
    {
      hide WordAt, PutWord, ZeroBlock, Inv;
      ghost var fs := FS(State(), files);
      EnsureOk(fs, f, Root(k));
      if blocks[k] == 0 {
        var block := AllocBlock();
        blocks[k] := block;
        assert blocks[..] == files[f][k := block];
      }
      files' := files[f := blocks[..]];
      assert FS(State(), files') == EnsureFS(fs, f, Root(k));
    }

    /** harddrive_write_blocks; it stops where a triple-indirect pointer would be needed. */
    method WriteBlocks(buffer: array<Byte>, blocks: array<Word>, pos: Word, num: nat,
                       ghost files: map<nat, Table>, ghost f: nat)
      requires blocks.Length == 13 && Holds(files, f, blocks[..])
      requires num * BLOCK_SIZE <= buffer.Length && nBlocks + 3 * num <= DISK_BLOCKS
      modifies this, blocks
      ensures (State(), blocks[..]) == WriteFrom(old(State()), old(blocks[..]), old(buffer[..]), pos, 0, num)
      ensures Holds(files[f := blocks[..]], f, blocks[..])
    {
      hide WordAt, PutWord, ZeroBlock, Ptr, Inv, EnsureSlot, BlockNumber;
      ghost var buf := buffer[..];
      ghost var files' := files;
      for i := 0 to num
        invariant nBlocks + 3 * (num - i) <= DISK_BLOCKS
        invariant buffer[..] == buf
        invariant files' == files[f := blocks[..]] && Holds(files', f, blocks[..])
        invariant WriteFrom(State(), blocks[..], buf, pos, i, num) ==
          WriteFrom(old(State()), old(blocks[..]), buf, pos, 0, num)
      {
        ghost var v, t := State(), blocks[..];
        ghost var fs := FS(v, files');
        var n := BlockNumber(pos, i);
        if n < MAX_BLOCKS { WriteOneOk(fs, f, n, Chunk(buf, i)); }
        var realBlock;
        realBlock, files' := RealBlock(blocks, n, files', f);
        if realBlock == 0 || realBlock == 0xFFFF_FFFF {
          return;
        }
        disk := disk[Addr(realBlock) := buffer[i * BLOCK_SIZE..(i + 1) * BLOCK_SIZE]];
        assert buffer[i * BLOCK_SIZE..(i + 1) * BLOCK_SIZE] == Chunk(buf, i);
        assert (State(), blocks[..], true) == WriteOne(v, t, n, Chunk(buf, i));
        assert FS(State(), files') == WriteOneFS(fs, f, n, Chunk(buf, i));
      }
    }

    /** harddrive_load_blocks; `false` stands for the NULL result. */
    method LoadBlocks(buffer: array<Byte>, blocks: array<Word>, pos: Word, num: nat) returns (ok: bool)
      requires blocks.Length == 13 && num * BLOCK_SIZE <= buffer.Length
      modifies buffer
      ensures blocks[..] == old(blocks[..])
      ensures (ok, buffer[..]) == LoadFrom(disk, blocks[..], old(buffer[..]), pos, 0, num)
    {
      hide WordAt, BlockNumber, Resolve;
      ghost var t := blocks[..];
      for i := 0 to num
        invariant blocks[..] == t
        invariant LoadFrom(disk, t, buffer[..], pos, i, num) == LoadFrom(disk, t, old(buffer[..]), pos, 0, num)
      {
        var n := BlockNumber(pos, i);
        var realBlock := ReadPointer(blocks, n);
        if realBlock == 0 || realBlock == 0xFFFF_FFFF {
          return i != 0;
        }
        ghost var buf := buffer[..];
        var data := disk[Addr(realBlock)];
        forall k | 0 <= k < BLOCK_SIZE {
          buffer[i * BLOCK_SIZE + k] := data[k];
        }
        assert buffer[..] == Splice(buf, i * BLOCK_SIZE, data);
        assert blocks[..] == t;
      }
      return true;
    }

    /** The pointer chase of the loader, one pointer block after the other. */
    method ReadPointer(blocks: array<Word>, n: nat) returns (realBlock: Word)
      requires blocks.Length == 13
      ensures realBlock == Resolve(disk, blocks[..], n)
    {
      hide WordAt;
      if n < NUM_DIRECT {
        realBlock := blocks[n];
      } else if n < NUM_DIRECT + PTRS_PER_BLOCK {
        var ptrs := disk[Addr(blocks[SINGLE])];
        realBlock := WordAt(ptrs, n - NUM_DIRECT);
      } else if n < MAX_BLOCKS {
        var index := n - NUM_DIRECT - PTRS_PER_BLOCK;
        var ptrs := disk[Addr(blocks[DOUBLE])];
        ptrs := disk[Addr(WordAt(ptrs, index / PTRS_PER_BLOCK))];
        realBlock := WordAt(ptrs, index % PTRS_PER_BLOCK);
      } else {
        var index := n - NUM_DIRECT - PTRS_PER_BLOCK - 0x1_0000;
        var ptrs := disk[Addr(blocks[TRIPLE])];
        ptrs := disk[Addr(WordAt(ptrs, index / 0x1_0000 % PTRS_PER_BLOCK))];
        ptrs := disk[Addr(WordAt(ptrs, index / PTRS_PER_BLOCK % PTRS_PER_BLOCK))];
        realBlock := WordAt(ptrs, index % PTRS_PER_BLOCK);
      }
    }

    /** write_inode on the sector that the truncating seek selects. */
    method StoreInode(x: Inode, number: nat)
      requires InTable(number)
      modifies this
      ensures nBlocks == old(nBlocks) && disk == Inodes.WriteInode(old(disk), x, number)
    {
      var words := [x.kind, x.size] + x.blocks + [0];
      var b := InodeBlock(number);
      disk := disk[b := PutWords(disk[b], InodeWord(number), words)];
    }
  }
}
