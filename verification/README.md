# EstrOS, proved engines

EstrOS is a 32-bit hobby kernel with its own file system, allocators, pager, scheduler, hash map and C
library. This project models the engines among them that do no I/O of their own and proves what they are
for. Code that changes state in the original is a class or a method with the same loops, branches and
constants here, and each such method is proved against a function or relation on values; the main results
are theorems about those functions, over all inputs and all runs.

| module | models | main result |
|---|---|---|
| `Blocks`, `BlockMap`, `Inodes`, `Volumes`, `FileHandle` | file system: block map, inodes, open files | over every run of writes to any files no block has two owners and every file is the byte sequence last written; reads and writes through a handle act on one growable sequence |
| `Packers`, `Images` | image builder | the kernel loader finds the files that were packed; an image meets the file system's invariant if and only if no file is of one to ten whole blocks, and runs of writes start from there |
| `Limbs`, `Closeness`, `DecFloat`, `DecimalText` | reading decimal numbers (section 7.22.1.3 of ISO/IEC 9899:2011) | the 64-bit significand, the limbs behind it and the binary exponent are exactly the number written while it fits the ring of limbs, and within a stated error of it for every text |
| `Rounding`, `FormatFloat`, `FormatText`, `Doubles` | printing numbers (section 7.21.6.1 of the same standard) | the text denotes the number rounded half to even at the place asked for, or within a stated bound of it; the reader takes up to 2500 digits of what was printed as that very number, and more within a stated error |
| `Brainfuck` | interpreter that scans flat text for brackets | it runs like the structured loops of the program's tree |
| `Calc` | shunting-yard compiler and postfix machine | printing, compiling and running a tree gives its value |
| `HashMaps` | probing hash map with recursive rehash | it refines a finite map and terminates; a rehash loses nothing and never nests |
| `Heaps` | kernel heap | blocks tile the heap, payloads are disjoint, free neighbours are joined |
| `Pagers` | free list and two-level page tables | free and mapped frames, those of the tables among them, partition memory; when mapping a frame that was asked for keeps that, exactly |
| `ProcessRing` | process ring and timer | which process each tick picks and which it removes, sleepers included, and that every process that stays ready gets its turn |
| `Arith64`, `Fmod`, `IntScan` | 64-bit division, `fmod` (section 7.12.10.1), integer scan and print (sections 7.22.1.4 and 7.21.6.2) | exact results for all inputs; printers and scanner are inverse |
| `Bits`, `Chars`, `Links`, `Options` | shared vocabulary | |

Real numbers stand for the values of limb sequences and of significands with exponents; no rounding is
hidden in them. Machine words wrap around where the original relies on it; where unbounded numbers leave
something out, that is listed at the end.

## What the proofs found

Where the code does not do what it is meant to, the model keeps the code, and a theorem says exactly when it
does.

- `fs_read` of more than one window counts all bytes but leaves only the last window in the buffer
  (`FileHandle.OpenFile.Read`); lengths that are neither within a window nor whole windows make its unsigned
  counter wrap around (`FileHandle.ReadableLengths`), 6000 bytes for one (`FileHandle.SixThousand`).
- `fs_write` returns 0 and drops its window when it appends, outside the window, to a file of a positive number
  of whole blocks with no block there, and only then (`FileHandle.OpenFile.FailsAtHole`): 5120 bytes into a new
  file, then one more (`FileHandle.AppendToWindow`); the first two windows read at once come out as the second
  one (`FileHandle.ReadTwoWindows`).
- The loader does not check for a missing pointer table and reads block 0 of the disk instead; when a missing
  block is still reported is `BlockMap.MissingBlocks`, and a disk on which it is not `BlockMap.GarbageLoads`.
- A packed file of one to ten whole blocks shares a block with its neighbour (`Images.ImageInv`), and a write
  behind its end destroys that (`Images.TwoFiles`).
- The last sixteen inodes of the table overlap the first file block (`Inodes.TableBelowFiles`), and storing one of
  them overwrites the file there (`Images.LastInodes`).
- `split` does not update the link back from the block behind, and is right only for the last block
  (`Heaps.SplitAsWritten`, `Heaps.StaleLinkSwallows`); growing in place may leave too little room for a header
  (`Heaps.GrowFits`), which then is written across the block behind (`Heaps.GrowsIntoNext`).
- Eight keys of one hash keep a ninth out of the map: every rehash leaves their window full
  (`HashMaps.OneHashOnly`), so `put` doubles the table up to 2^31 slots before it fails (`HashMaps.HashMap.StaysOut`,
  `HashMaps.HashMap.Put`). Different hashes are spread: a put fails only next to eight keys whose products with the
  multiplier lie within 15 of the key's (`HashMaps.JamGathers`).
- Mapping a frame that was asked for takes it from the first free block without looking whether it lies there.
  The free list survives that under an exact condition (`Pagers.TakesPage`), which a frame in use never meets
  (`Pagers.MappedNotClean`), and starting a program maps frames in use
  (lib/estros/src/process.c:70-75).
- A page that is freed keeps its flags but the first, and the next page mapped there inherits them, the one for user
  space among them (`Pagers.FlagsStay`).
- The calculator does not notice a bracket without a partner (`Calc.LoneBracket`).
- The timer passes over a process that still sleeps and removes the one behind it, running or not
  (`ProcessRing.Removed`, `ProcessRing.RunningRemoved`); it wakes a process only in the later part of a second
  (`ProcessRing.DueIs`, `ProcessRing.PassedUnseen`), at most a second late (`ProcessRing.DueInTime`). When it finds
  none ready it turns for ever, or empties the ring and goes on in freed memory (`ProcessRing.NeverPicks`).
- `step_code` compares characters with the length of the program, which could end the scan forward early
  for lengths up to 127 only, characters being signed, and is harmless because the length is always 512; a
  negative character does end the scan backward (`Brainfuck.ScansMeet`). Brackets without a partner are not reported
  (`Brainfuck.PartnerlessBrackets`, `Brainfuck.LonelyBrackets`).
- `printf` pads decimals that the limbs do not have with always nine zeros (eighteen in scientific notation), so
  `%f` of 1 shows nine decimals (`FormatText.PrintOne`, `FormatText.PrintOneScientific`). When the decimals asked
  for are written is part of `FormatText.PrintFixed` and `FormatText.PrintScientific`; the number shown is right
  all the same.
- `pack_file` gives files of 10241 to 11263 bytes no pointer block (`Packers.PackedResolves`) and files of whole
  blocks one pointer too many (`Packers.SurplusPointer`).
- `__clzdi2` returns 63 for 0 (`Arith64.Clz`).

## Model

| member | source | states |
|---|---|---|
| BlockMap.RunOk | kernel/filesystem/estros-fs.c:79-340 | Over every run of writes to any files: the pointer forest stays in range (above the metadata, below `n_blocks`), no block has two owners, all blocks from `n_blocks` on are zero, and every logical block of every file holds exactly what the last write that covered it put there, or what it held before; `Images.RunFromImage` is the case that starts with a packed image |
| BlockMap.LoadAfterWrite | kernel/filesystem/estros-fs.c:149-340 | Round trip: after a write of `num` blocks at any position in the direct, single- or double-indirect range, a load of the same blocks returns the same bytes |
| BlockMap.WriteFromOk | kernel/filesystem/estros-fs.c:219-340 | A write of several blocks keeps the invariant, fills exactly its own logical blocks with its chunks and leaves every other block of this and every other file as it was |
| BlockMap.WriteOneOk | kernel/filesystem/estros-fs.c:219-340 | One block: succeeds below the triple-indirect range, keeps the invariant, stores the data, changes no other logical block of any file |
| BlockMap.EnsureOk | kernel/filesystem/estros-fs.c:226-286 | Allocating the tables on the way to a slot keeps the invariant, changes only slots on that way that were empty, changes no data of any file, and leaves the slot allocated |
| BlockMap.EnsureSlot | kernel/filesystem/estros-fs.c:226-286 | Reaching a slot allocates at most one block per level |
| BlockMap.GrowInv | kernel/filesystem/estros-fs.c:79-88 | Allocation with a pointer written into the parent keeps the invariant: fresh block, zero, owned once |
| BlockMap.GrowPtrIn | kernel/filesystem/estros-fs.c:79-88 | As seen from any table, allocation changes the one pointer it fills and no other, although tables lie on the same disk |
| BlockMap.GrowPtr | kernel/filesystem/estros-fs.c:79-88 | The same for every slot of every file of the system |
| BlockMap.GrowKeepsData | kernel/filesystem/estros-fs.c:79-88 | Allocation changes the data of no other slot of any file |
| BlockMap.GrowExtends | kernel/filesystem/estros-fs.c:79-88 | Allocation fills the slot asked for and keeps all other pointers and data |
| BlockMap.StorePtr | kernel/filesystem/estros-fs.c:337-338 | A data write overwrites no pointer of any file |
| BlockMap.StoreOk | kernel/filesystem/estros-fs.c:333-338 | A data write keeps the invariant and changes the data of its own slot alone |
| BlockMap.LeafSlot | kernel/filesystem/estros-fs.c:226-258 | Every block number below 65802 has a data slot in the direct, single- or double-indirect tree |
| BlockMap.LeafSlotInjective | kernel/filesystem/estros-fs.c:226-258 | Different block numbers never share a slot |
| BlockMap.BlockNumberIs | kernel/filesystem/estros-fs.c:222 | The 32-bit position arithmetic gives consecutive block numbers for every write that fits |
| BlockMap.ResolveIsPtr | kernel/filesystem/estros-fs.c:153-203 | The pointer chase of the loader, which never checks for a missing table, finds the slot pointer whenever the table exists |
| BlockMap.ResolvePaths | kernel/filesystem/estros-fs.c:149-217 | The four ranges of blocks, and the entry in each table on the way, for every place in every table: block 266 + 256 j + k is entry k of the table in entry j of the table in pointer 11, and so on to the triple range |
| BlockMap.LeafSlots | kernel/filesystem/estros-fs.c:219-286 | The writer fills the same places |
| BlockMap.MissingBlocks | kernel/filesystem/estros-fs.c:149-214 | A block below 65802 that was never written is reported as missing if and only if the word that the unchecked chase ends at is 0 or all ones: the pointer itself, or when its table is missing a word of block 0 of the disk, or of the block such a word names |
| BlockMap.GarbageLoads | kernel/filesystem/estros-fs.c:159-214 | A disk and a file on which it is not reported: the load of a block that was never written succeeds with the bytes of another block |
| BlockMap.LoadsOne | kernel/filesystem/estros-fs.c:204-214 | One block is loaded from where the chase ends, unless that is 0 or all ones |
| BlockMap.ContentResolves | kernel/filesystem/estros-fs.c:153-213 | For an allocated block the chase ends at a real block that holds its content |
| BlockMap.LoadFromOk | kernel/filesystem/estros-fs.c:149-217 | The blocks up to the first missing one are loaded in order, and what lies before in the buffer is kept |
| Blocks.PutWord | kernel/filesystem/estros-fs.c:246-248 | Writing one pointer of a 256-word table changes that word alone |
| Blocks.ByteOrder | kernel/filesystem/estros-fs.c:226-286 | The lowest byte of a word comes first, and the other bytes of the block stay |
| Volumes.Volume.AllocBlock | kernel/filesystem/estros-fs.c:79-88 | Hands out `n_blocks`, counts it up and writes the super block and nothing else |
| Volumes.Volume.EnsureEntry | kernel/filesystem/estros-fs.c:245-251 | Reads a table entry, and allocates and writes it back if it is 0, as one growth step of the model; the invariant holds again |
| Volumes.Volume.RealBlock | kernel/filesystem/estros-fs.c:222-331 | The whole block choice of a write, against `EnsureSlot`: new disk, new inode pointers, the number found; the triple-indirect range gives the error value and no change |
| Volumes.Volume.EnsureRoot | kernel/filesystem/estros-fs.c:227-240 | Allocates one inode pointer if it is 0 |
| Volumes.Volume.WriteBlocks | kernel/filesystem/estros-fs.c:219-340 | `harddrive_write_blocks` equals the specification `WriteFrom` on disk, counter and inode pointers, and keeps the invariant for all files |
| Volumes.Volume.LoadBlocks | kernel/filesystem/estros-fs.c:149-217 | `harddrive_load_blocks` equals the specification `LoadFrom`, result and buffer, for any disk |
| Volumes.Volume.ReadPointer | kernel/filesystem/estros-fs.c:155-203 | The three-level chase equals `Resolve`, triple-indirect range included |
| Volumes.Volume.StoreInode | kernel/filesystem/estros-fs.c:132-147 | `write_inode` changes the 64 bytes of its inode, as `Inodes.StoredWords` lays them out on the disk, and nothing else |
| Inodes.FetchAfterWrite | kernel/filesystem/estros-fs.c:132-147 | An inode read back equals the one written, and all other inodes are unchanged, although eight share a sector; where they lie is `Inodes.InodePlace` |
| Inodes.InodePlace | kernel/filesystem/estros-fs.c:134-143 | Word k of inode n lies at byte 591872 + 64 n + 4 k of the disk: the table holds the inodes one after another |
| Inodes.StoredWords | kernel/filesystem/estros-fs.c:132-147 | Storing an inode puts its kind, its size and its thirteen pointers, in this order, at those bytes |
| Inodes.PlacesApart | kernel/filesystem/estros-fs.c:134-143 | Two inodes in one block never overlap |
| Inodes.TableBelowFiles | kernel/filesystem/estros-fs.c:134-135 | The inode table lies below the file blocks if and only if the inode number is below 8176: the last sixteen inodes overlap block 1089 |
| Inodes.PutWords | kernel/filesystem/estros-fs.c:141-143 | Copying words into a block changes exactly those words |
| Inodes.ReadWords | kernel/filesystem/estros-fs.c:510-522 | Words read from a block are its words in order |
| Inodes.MetadataPtr | kernel/filesystem/estros-fs.c:132-147 | A write below the file blocks changes no pointer of any file |
| Inodes.MetadataWriteOk | kernel/filesystem/estros-fs.c:132-147 | Such a write keeps the invariant and the contents of all files |
| Inodes.WriteInodeOk | kernel/filesystem/estros-fs.c:132-147 | Storing an inode below 8176 keeps the invariant and the contents of all files |
| Images.RunFromImage | tools/EstrOSFS.cpp:197-322 | Base case of the runs: on an image of consecutively packed files, none of a forgotten size or of one to ten whole blocks, after any run of writes no block has two owners and each block of each file holds what was packed until it is written, and then what the last write put there |
| Images.ImageInv | tools/EstrOSFS.cpp:82-188 | The invariant of the file system holds of a packed image if and only if no file is of one to ten whole blocks |
| Images.SurplusBreaks | tools/EstrOSFS.cpp:114-118 | Such a file also owns the first block of the next file that is not empty, or the first block that is still free |
| Images.NeighbourOverwritten | tools/EstrOSFS.cpp:114-118 | A write of the block behind the end of a file of one to nine whole blocks changes block 0 of its neighbour |
| Images.TwoFiles | tools/EstrOSFS.cpp:82-118 | An image of a file of 1024 bytes and one of one byte on which such a write destroys the second file |
| Images.ImageOpens | tools/EstrOSFS.cpp:82-188 | On a good image every packed file can be opened, and its bytes as `FileHandle` sees them are those packed |
| Images.RecordFetched | kernel/filesystem/estros-fs.c:510-522 | `fetch_inode` returns an inode if and only if its sixteen words stand at its bytes of the table |
| Images.PackedInode | tools/EstrOSFS.cpp:315-316 | On a packed image, with the inodes one after another, `fetch_inode` of i + 1 returns the inode that was packed for file i, with the pointers from which the runs start |
| Images.BlockCount | tools/EstrOSFS.cpp:286-294 | The kernel finds the number of blocks packed in the third word of the super block |
| Images.InodeOverwrites | kernel/filesystem/estros-fs.c:134-150 | Storing one of the last sixteen inodes puts its words into the first block of the first file |
| Images.LastInodes | kernel/filesystem/estros-fs.c:134-150 | An input: an image of one file of one byte whose block inode 8176 overwrites |
| Images.ImageContent | tools/EstrOSFS.cpp:82-188 | Every logical block of a packed file, beyond its end too, is what was packed |
| Images.GoodImage | tools/EstrOSFS.cpp:82-188 | Without such a file the pointers stay in range and apart, and what is free is zero |
| Images.PackFiles | tools/EstrOSFS.cpp:197-206 | Packing the files of a directory one after another appends their images and inodes in order |
| Images.EachOnDisk | tools/EstrOSFS.cpp:252-322 | Each file of an image lies at the sum of the lengths before it |
| Images.PackedSlots | tools/EstrOSFS.cpp:100-131 | A nonzero pointer of a packed file names one of its own blocks, a different one in each slot |
| Images.SurplusSlot | tools/EstrOSFS.cpp:114-118 | The pointer too many names the block behind the file |
| Images.TableThere | tools/EstrOSFS.cpp:119-131 | Blocks from the eleventh on have their pointer table |
| FileHandle.Perform | kernel/filesystem/estros-fs.c:378-460 | Any sequence of `fs_read` and `fs_write` calls that each fit one window behaves as reads and writes on one growable byte sequence, up to a write that fails; that one is at the end of a file of whole blocks, not empty, with no block there; other files never change |
| FileHandle.PerformRead | kernel/filesystem/estros-fs.c:378-420 | One read returns the bytes at the position and moves it |
| FileHandle.PerformWrite | kernel/filesystem/estros-fs.c:422-460 | One write overwrites or extends the file at the position; it fails exactly outside the cached window at the end of a file of whole blocks, not empty, with no block there, and then changes nothing |
| FileHandle.OpenFile.constructor | kernel/filesystem/estros-fs.c:344-368 | A new handle is at position 0 with an empty window |
| FileHandle.OpenFile.LoadWindow | kernel/filesystem/estros-fs.c:401-409 | Loading succeeds if and only if the first block is there, and then the window mirrors the file |
| FileHandle.OpenFile.Read | kernel/filesystem/estros-fs.c:378-420 | Delivers the bytes at the position, counts them and keeps file and window, for all lengths whose rounds fit (`FileHandle.ReadableLengths`); a read of several whole windows leaves only the last one in the buffer, because the destination never moves |
| FileHandle.OpenFile.ReadChunks | kernel/filesystem/estros-fs.c:393-418 | The same for the loop |
| FileHandle.OpenFile.ReadWindow | kernel/filesystem/estros-fs.c:401-416 | One round: bytes at the position go to the front of the buffer |
| FileHandle.OpenFile.CopyOut | kernel/filesystem/estros-fs.c:412-415 | The copy loop fills the front of the buffer with the file bytes and keeps the rest |
| FileHandle.OpenFile.Write | kernel/filesystem/estros-fs.c:422-460 | With the window ready, the file becomes the old one overwritten at the position, size and inode on disk included, and blocks outside the window stay; otherwise 0 is returned, the window is dropped and everything else stays |
| FileHandle.OpenFile.FailsAtHole | kernel/filesystem/estros-fs.c:401-442 | The writes that fail, in the caller's terms: not within the cached window, position at the size, the size a positive number of whole blocks, and no block there |
| FileHandle.OpenFile.HoleIs | kernel/filesystem/estros-fs.c:205-210 | The chase on disk for the block at the position finds none exactly there |
| FileHandle.AppendToWindow | kernel/filesystem/estros-fs.c:422-460 | An input: in a new empty file a write of 5120 bytes succeeds and the next one, of 1 byte, fails |
| FileHandle.ReadTwoWindows | kernel/filesystem/estros-fs.c:378-420 | An input: a read of 10240 bytes counts them all, and its buffer starts with byte 5120 of the file |
| FileHandle.OpenFile.Flush | kernel/filesystem/estros-fs.c:443-459 | Copying in, growing the size and writing the window out overwrite the file, keep window and disk equal and store the inode |
| FileHandle.OpenFile.CopyIn | kernel/filesystem/estros-fs.c:443-446 | The copy loop patches the window and nothing else |
| FileHandle.OpenFile.WriteWindow | kernel/filesystem/estros-fs.c:451-457 | The blocks written, the fewer of five and the blocks of the file, are enough: the disk holds the patched file and the window mirrors it |
| FileHandle.LoadMirrors | kernel/filesystem/estros-fs.c:401-409 | A load at a position within the file gives a window that mirrors every byte of the file it covers |
| FileHandle.LoadSucceeds | kernel/filesystem/estros-fs.c:205-210 | A load fails if and only if its first block is missing |
| FileHandle.WriteOutWindow | kernel/filesystem/estros-fs.c:443-455 | Blocks written from a patched window make the file the overwritten one and keep the mirror |
| FileHandle.KeptAcross | kernel/filesystem/estros-fs.c:455-457 | Window and inode writes together leave all other files as they were |
| FileHandle.SameBytes | kernel/filesystem/estros-fs.c:457 | A write that keeps all block contents keeps bytes and mirror |
| FileHandle.ReadableLengths | kernel/filesystem/estros-fs.c:393-399 | The unsigned count of bytes left never wraps around and no round runs past its window if and only if the read fits one window or is whole windows from a block boundary |
| FileHandle.SixThousand | kernel/filesystem/estros-fs.c:393-399 | An input: a read of 6000 bytes, at any position, copies 5120 in its second round where 880 are left, and the count of those left becomes 2^32 - 4240 |
| FileHandle.RoundNext | kernel/filesystem/estros-fs.c:393-399 | While the rounds fit, the next one takes no more than is left, stays in its window and leaves rounds that fit |
| FileHandle.Overwrite | kernel/filesystem/estros-fs.c:443-450 | Bytes of a file after a write: the written ones in its range, the old ones elsewhere, the longer of both lengths |
| Limbs.UpLimb | lib/goblibc/src/floatscan.c:242-252 | A limb shifted up by 29 bits plus the carry equals the new limb plus 10^9 times the new carry; bounds on both, with 10^9 itself reachable |
| Limbs.UpFrac | lib/goblibc/src/floatscan.c:242-252 | The same for the number that all limbs from there on form |
| Limbs.UpTailFrac | lib/goblibc/src/floatscan.c:240-257 | The whole pass multiplies the number by 2^29 exactly, trailing zeros dropped |
| Limbs.UpTailBounded | lib/goblibc/src/floatscan.c:240-257 | Limbs stay at most 10^9 and the carry within 30 bits |
| Limbs.DownLimbExact | lib/goblibc/src/floatscan.c:219-223 | A limb divided by a power of ten or two: nothing is lost between limb and carry |
| Limbs.DownFrac | lib/goblibc/src/floatscan.c:219-229 | The whole pass divides the number exactly |
| Limbs.DownBounded | lib/goblibc/src/floatscan.c:293-304 | The pass keeps all limbs within 10^9, and within 30 bits |
| Limbs.DownLead | lib/goblibc/src/floatscan.c:224-228 | The first limb is the old one divided, and if it is 0 the next one is not |
| Limbs.HalfTop | lib/goblibc/src/floatscan.c:293-304 | Halving the limbs halves the integer of the top three, rounding down |
| Limbs.TopFrac | lib/goblibc/src/floatscan.c:318-323 | The top three limbs are the integer part of the number scaled to 10^27, with a rest of about 1 at most |
| Limbs.ValueDropLead | lib/goblibc/src/floatscan.c:224-228 | Dropping a leading 0 with `rp -= 9` keeps the number |
| Limbs.ValueAddLead | lib/goblibc/src/floatscan.c:258-268 | A carry in front with `rp += 9` keeps the number |
| Limbs.ValueZeros | lib/goblibc/src/floatscan.c:209-211 | Zeros at the end do not change the number |
| Limbs.ValueScale | lib/goblibc/src/floatscan.c:290-304 | A pass by a power of two together with the binary exponent keeps the number |
| Limbs.ValueAlign | lib/goblibc/src/floatscan.c:214-233 | Division by a power of ten together with moving the radix point keeps the number |
| DecFloat.Scaler.Upscale | lib/goblibc/src/floatscan.c:235-269 | Ends with 27 or 36 digits before the point (or where it was); keeps the exact number unless the ring overflows, which it does not while limbs and digits to go are few enough, and in any case stays within one `Eps` a round of it, over a bounded number of rounds |
| DecFloat.Scaler.UpOnce | lib/goblibc/src/floatscan.c:237-269 | One round upward: the exact number, or in a full ring within `Eps` of it; it puts a limb in front or leaves a leading limb of 2 at least |
| DecFloat.Scaler.Downscale | lib/goblibc/src/floatscan.c:271-315 | Terminates with exactly 27 digits before the point and the top three limbs at 2^63 or more; keeps the exact number and stays below 2^64 unless the ring overflows, which it does not while there is room for three limbs more per limb dropped, and in any case stays within one `Eps` a round |
| DecFloat.Scaler.AlignRadix | lib/goblibc/src/floatscan.c:213-233 | Moves the radix point to a limb boundary, keeps the number, adds at most one limb |
| DecFloat.Scaler.AlignBy | lib/goblibc/src/floatscan.c:216-232 | The same for one power of ten |
| DecFloat.Scaler.DropTrailing | lib/goblibc/src/floatscan.c:209-211 | Drops zeros at the end, keeps the number |
| DecFloat.Scaler.ShiftUp | lib/goblibc/src/floatscan.c:240-257 | The in-place ring pass equals the pass over the sequence of limbs, carry included |
| DecFloat.Scaler.Prepend | lib/goblibc/src/floatscan.c:258-268 | Puts the carry in front; in a full ring, and only there, the last two limbs become their bitwise or |
| DecFloat.FoldRing | lib/goblibc/src/floatscan.c:258-268 | Bitwise or of the last two cells and a limb in front, as one step on the sequence of limbs of a full ring |
| DecFloat.Scaler.Divide | lib/goblibc/src/floatscan.c:219-229 | The in-place ring pass downward equals the pass over the sequence of limbs, a leading 0 dropped with its nine digits |
| DecFloat.Scaler.DivideCell | lib/goblibc/src/floatscan.c:219-224 | One limb divided in the ring is one step of the pass |
| DecFloat.Scaler.Append | lib/goblibc/src/floatscan.c:305-314 | Puts the carry behind; in a full ring, and only there, the last limb is made odd instead |
| DecFloat.Scaler.TooBig | lib/goblibc/src/floatscan.c:276-288 | Compares the top limbs with those of 2^64 - 1, limb by limb |
| DecFloat.Scaler.HalveOnce | lib/goblibc/src/floatscan.c:274-314 | One round keeps the number, or in a full ring stays within `Eps` of it, keeps the limits, makes progress, and changes the leading limb by division alone |
| DecFloat.Scaler.Shrink | lib/goblibc/src/floatscan.c:219-233 | A pass downward and its last carry together are the pass over the sequence of limbs, up to the one limb that finds no room |
| DecFloat.Scaler.Assemble | lib/goblibc/src/floatscan.c:318-323 | The significand is the integer of the top three limbs, with limbs of 0 supplied where there are none |
| DecFloat.AboveTop | lib/goblibc/src/floatscan.c:276-288 | The limb comparison decides whether the top three limbs reach 2^64 |
| DecFloat.HalveLimbs | lib/goblibc/src/floatscan.c:293-304 | Halving from above the limit never falls below 2^63 |
| DecFloat.AlignValue | lib/goblibc/src/floatscan.c:219-233 | The number kept by the alignment, last carry included |
| DecFloat.DownValue | lib/goblibc/src/floatscan.c:290-314 | The number kept by one round downward, last carry included |
| DecFloat.UpValue | lib/goblibc/src/floatscan.c:239-268 | The number kept by one round upward |
| DecFloat.FoldedNear | lib/goblibc/src/floatscan.c:262-266 | Folding the last two limbs changes the number by at most its share `Eps`, 10^-18404 |
| DecFloat.MarkedNear | lib/goblibc/src/floatscan.c:305-314 | Marking the last limb in place of a carry likewise |
| DecFloat.GrowthDrops | lib/goblibc/src/floatscan.c:274-314 | Each limb dropped on the way down takes at most three new ones |
| DecFloat.GrowthBound | lib/goblibc/src/floatscan.c:274-314 | The most limbs that scaling down can need, for any number |
| DecFloat.RoundsDrop | lib/goblibc/src/floatscan.c:274-304 | Each round downward uses up one of a bounded number of rounds, over limbs and digits to go |
| DecFloat.RoundsMost | lib/goblibc/src/floatscan.c:274-304 | The bound on the rounds: four per limb to drop and 64 more |
| Closeness.FoldNear | lib/goblibc/src/floatscan.c:262-266 | Two limbs at the end of at least 2046 made one: the arithmetic of the error |
| Closeness.NearSum | lib/goblibc/src/floatscan.c:235-315 | Errors of consecutive rounds add up |
| Closeness.NearWithin | lib/goblibc/src/floatscan.c:235-315 | In figures: up to a million steps are a relative error of at most twice as many `Eps` |
| DecFloat.PowerOfTenIs | lib/goblibc/src/floatscan.c:80-81 | The eight constants are the powers of ten and divide 10^9 |
| DecimalText.ReadFloat | lib/goblibc/src/floatscan.c:84-323 | For every text: where the numeral ends, when there are no digits, when the exponent is bad, when the value is 0; overflow and underflow by where the point stands, and so far out that the number itself is; a small number is exactly its integer times its power of ten; otherwise the 64-bit significand with the rest of the limbs and the binary exponent is the decimal number within a stated number of errors of 10^-18404, and exactly it while its digits and its point leave room in the ring, a condition on length, place of the point and exponent that long doubles meet too |
| DecimalText.ReadDigits | lib/goblibc/src/floatscan.c:84-133 | The limbs hold the digits read, the counts place the radix point and the last digit other than 0, and nothing is lost up to 18405 digits |
| DecimalText.SkipZeros | lib/goblibc/src/floatscan.c:87-94 | Leading zeros take no room and still count as digits |
| DecimalText.StoreNext | lib/goblibc/src/floatscan.c:106-130 | One digit more: the stored number becomes ten times itself plus the digit, or once the buffer is full a nonzero digit is only noted |
| DecimalText.TakeExponent | lib/goblibc/src/floatscan.c:135-156 | The exponent counts if digits follow; else it is an error unless the reader may back up |
| DecimalText.ScanExp | lib/goblibc/src/floatscan.c:34-62 | The exponent is exact, or past 10^16 at least that large; the reader stops behind its last digit |
| DecimalText.MoreDigits | lib/goblibc/src/floatscan.c:53-58 | A bounded digit loop keeps the exact value of the digits read |
| DecimalText.FillLast | lib/goblibc/src/floatscan.c:183-190 | An incomplete last limb is moved up to nine digits |
| DecimalText.Finish | lib/goblibc/src/floatscan.c:183-323 | The stored digits as a small integer with a power of ten, or scaled to a significand: exact while there is room in the ring, and within the stated error in any case; the small one if and only if the digits are at most eight but for zeros, the point is within the first eighteen and a product is exact |
| DecimalText.SmallNumber | lib/goblibc/src/floatscan.c:169-171 | Up to nine digits with neither fraction nor exponent are the first limb |
| DecimalText.SmallExact | lib/goblibc/src/floatscan.c:198-206 | The product of a limb and a power of ten that is taken for the result needs no more bits than the type has |
| DecimalText.ShortNext | lib/goblibc/src/floatscan.c:110-119 | While the last digit other than 0 is among the first eight, all limbs but the first are 0 |
| DecimalText.ShortPadded | lib/goblibc/src/floatscan.c:197-207 | Then the padded limbs are the first one alone |
| Limbs.LeadAlone | lib/goblibc/src/floatscan.c:197-207 | Limbs with the first alone nonzero are that limb at its place |
| DecimalText.Normalize | lib/goblibc/src/floatscan.c:209-315 | The four scaling steps together keep the number while there is room, and in any case within one error a round |
| DecimalText.StoreExact | lib/goblibc/src/floatscan.c:112-121 | The limbs after one digit stand for the number extended by it |
| DecimalText.StoreDigit | lib/goblibc/src/floatscan.c:112-121 | The same with the layout of the buffer |
| DecimalText.AddDigit | lib/goblibc/src/floatscan.c:114-117 | The weight a digit gets in the limbs |
| DecimalText.StickyDigit | lib/goblibc/src/floatscan.c:122-130 | A digit beyond the buffer only makes the last limb odd; then the limbs are less than one unit of the last one off the digits read |
| DecimalText.PaddedValue | lib/goblibc/src/floatscan.c:183-198 | The padded limbs stand for the numeral with its exponent |
| DecimalText.PaddedNear | lib/goblibc/src/floatscan.c:122-198 | However many digits were left out, the padded limbs are the numeral with its exponent within `Eps` |
| DecimalText.RoughFirst | lib/goblibc/src/floatscan.c:122-130 | The first digit left out |
| DecimalText.RoughNext | lib/goblibc/src/floatscan.c:122-130 | Further digits left out |
| DecimalText.DecimalRange | lib/goblibc/src/floatscan.c:172-181 | The place of the point and the exponent bound the number from both sides, so the limits on `lrp` are limits on the number |
| DecimalText.SignificantRange | lib/goblibc/src/floatscan.c:104-131 | Digits counted from the first one that is not 0 are the digits of the integer |
| DecimalText.Assembled | lib/goblibc/src/floatscan.c:318-323 | The number is significand plus rest, times the power of two |
| FormatFloat.Format | lib/goblibc/src/format.c:908-1015 | End to end, for every finite number of the type, precision and notation: what is left to print is `n` units of the place asked for; the number is `x` units plus what was cut off, `n` is nearest to `x`, and exactly half-to-even when nothing was cut; what was cut is at most 2 units of the (p+21)-th decimal place (fixed), or that small a share per round (else); nothing is cut for integers, nor while the limbs fit; the exponent is that of the rounded number, one more than before exactly when the round gives the next power of ten |
| FormatFloat.CutRight | lib/goblibc/src/format.c:941-1010 | Where limbs were cut, the result is still the nearest one unless the number lies as near to the middle between two results as the limbs cut are worth |
| FormatFloat.RoundOff | lib/goblibc/src/format.c:962-1015 | Round and exponent together; when the result is 0, the limb that the number printed ends with |
| FormatFloat.Cleared | lib/goblibc/src/format.c:908-956 | Everything before the round: what is left as limbs without a binary exponent, plus what was cut off, is the number, and the place of its first digit is found |
| FormatFloat.Start | lib/goblibc/src/format.c:911-923 | The limbs before any shift stand for the number exactly and leave room for all shifts |
| Doubles.EveryDouble | lib/goblibc/src/format.c:845-912 | Every positive finite double, subnormal ones included, is a significand and an exponent that the printer takes, with its value |
| Doubles.OnlyDoubles | lib/goblibc/src/format.c:845-912 | And each that it takes is such a double |
| FormatFloat.Decimal.Spread | lib/goblibc/src/format.c:919-923 | The do-while terminates within five limbs, fewer for spare bits, and the limbs are the significand exactly |
| FormatFloat.Decimal.ToInteger | lib/goblibc/src/format.c:925-960 | Both shift loops: no binary exponent is left, and number printed plus what was cut is the number |
| FormatFloat.Decimal.ShiftUp | lib/goblibc/src/format.c:925-940 | Keeps the number exactly, terminates at exponent 0, uses at most one limb per 29 bits |
| FormatFloat.Decimal.UpRound | lib/goblibc/src/format.c:927-939 | One round keeps the number |
| FormatFloat.Decimal.UpPass | lib/goblibc/src/format.c:929-934 | The limb loop equals the pass over the sequence of limbs |
| FormatFloat.Decimal.Trim | lib/goblibc/src/format.c:937-938 | Zeros at the end go, the number stays |
| FormatFloat.Decimal.ShiftDown | lib/goblibc/src/format.c:941-960 | Keeps the number but for the limbs cut off, with the bounds on those, and cuts nothing while the limbs fit |
| FormatFloat.Decimal.DownOnce | lib/goblibc/src/format.c:943-959 | One round with its cut: how much it can lose |
| FormatFloat.Decimal.HalveRound | lib/goblibc/src/format.c:943-954 | One round without the cut loses nothing |
| FormatFloat.Decimal.CutBehind | lib/goblibc/src/format.c:956-958 | Cutting loses less than one unit of the last limb kept, even when that lies before the first digit |
| FormatFloat.Decimal.MoveDown | lib/goblibc/src/format.c:945-954 | The limb loop and the new ends equal the pass over the sequence of limbs |
| FormatFloat.Decimal.DownPass | lib/goblibc/src/format.c:945-950 | The limb loop equals the pass over the sequence of limbs |
| FormatFloat.Decimal.PutEnds | lib/goblibc/src/format.c:951-954 | A leading 0 is passed and a carry put behind |
| FormatFloat.Decimal.LeadExponent | lib/goblibc/src/format.c:962-966 | The decimal exponent: the number lies between 10^e and 10^(e+1) |
| FormatFloat.Decimal.CountLead | lib/goblibc/src/format.c:963-964 | The loop over the first limb finds the place of its first digit |
| FormatFloat.Decimal.SettleAndCount | lib/goblibc/src/format.c:995-1009 | The round on the limb with its carries, and the exponent counted after them |
| FormatFloat.Decimal.Round | lib/goblibc/src/format.c:968-1015 | The limbs become the integer nearest to the number in units of the place, half to even if no limbs were cut before; the carry chain and the dropped zeros keep that; if the round goes up the exponent is counted again, and else it is the one given |
| FormatFloat.Decimal.RoundWithin | lib/goblibc/src/format.c:970-1013 | The same for the case with digits behind the place |
| FormatFloat.Decimal.CutAt | lib/goblibc/src/format.c:979-1012 | The limbs up to the place hold the whole steps, one more and a new exponent if the round goes up |
| FormatFloat.Decimal.GoesUp | lib/goblibc/src/format.c:979-997 | The probe decides as the tail compared with half a step; on a tie with exact limbs, by the parity of the steps kept |
| FormatFloat.Decimal.Carry | lib/goblibc/src/format.c:1000-1006 | The carry chain keeps the integer and leaves no limb full |
| FormatFloat.Decimal.CarryOne | lib/goblibc/src/format.c:1002-1005 | One step of it, a new leading limb included |
| FormatFloat.Decimal.Settle | lib/goblibc/src/format.c:995-1006 | The limbs lose the tail and gain the step |
| FormatFloat.Decimal.TakeTail | lib/goblibc/src/format.c:995 | The limb loses its tail, the integer as much |
| FormatFloat.Decimal.AddStep | lib/goblibc/src/format.c:999-1006 | The integer gains the step, carried as far as need be |
| FormatFloat.Decimal.DivideLimb | lib/goblibc/src/format.c:947-949 | One limb divided, with its carry, as in the pass over the sequence |
| FormatFloat.WithinNext | lib/goblibc/src/format.c:943-959 | Losses of one more round within the bound, either notation |
| FormatFloat.Decimal.StepSize | lib/goblibc/src/format.c:975-978 | The step within the limb is the power of ten of the place |
| FormatFloat.Decimal.DropZeros | lib/goblibc/src/format.c:1014-1015 | Zeros at the end go, the number to print stays |
| FormatFloat.UpFracExact | lib/goblibc/src/format.c:929-934 | One pass up multiplies the number exactly and leaves limbs below 10^9 |
| FormatFloat.UpCarry | lib/goblibc/src/format.c:933 | The carry is below the multiplier |
| FormatFloat.SpreadNext | lib/goblibc/src/format.c:921-922 | Taking one limb off keeps limbs plus remainder |
| FormatFloat.NextBits | lib/goblibc/src/format.c:922 | Each limb taken off clears nine more low bits, so the do-while ends |
| FormatFloat.DownNormal | lib/goblibc/src/format.c:945-950 | One pass down leaves limbs below 10^9 |
| FormatFloat.DownLast | lib/goblibc/src/format.c:945-954 | It leaves no 0 at the end |
| FormatFloat.RoundDone | lib/goblibc/src/format.c:943-954 | One round down on the limbs: same number, no zeros at the ends |
| FormatFloat.RoundTarget | lib/goblibc/src/format.c:973-979 | The number as whole steps and a tail, and the integer a decision rounds it to |
| Rounding.Decision | lib/goblibc/src/format.c:979-997 | Limb, following limbs and two parities decide the round as the exact tail does |
| Rounding.TailCompare | lib/goblibc/src/format.c:987-992 | The three cases of the probe compare the exact tail with half a step |
| Rounding.KeptSplits | lib/goblibc/src/format.c:985-986 | The parity of the steps kept, in the limb or in the one before it |
| Rounding.StepDecided | lib/goblibc/src/format.c:997 | A decision that way gives the nearest integer, the even one of two |
| Rounding.IntCarry | lib/goblibc/src/format.c:1002-1005 | A full limb set to 0 and one added above keep the integer |
| Rounding.StepPlace | lib/goblibc/src/format.c:974-978 | A step in that limb is one unit of the decimal place |
| Rounding.WholeUnits | lib/goblibc/src/format.c:970 | Without digits behind the place the number is a whole number of units |
| Rounding.CutLoss | lib/goblibc/src/format.c:957-958 | What cut limbs are worth |
| Rounding.UnitsAddUp | lib/goblibc/src/format.c:956-959 | Losses over all rounds stay within two units, fixed notation |
| Rounding.LeadPlace | lib/goblibc/src/format.c:962-964 | The place of the first digit |
| Rounding.DecadeAfter | lib/goblibc/src/format.c:997-1009 | Rounding keeps the place of the first digit, or it gives the next power of ten |
| FormatText.PrintAndRead | lib/goblibc/src/format.c:908-1130 | Round trip through both engines: for every finite number, precision and size of type, `%e` rounds it to `n` units and writes a text that the reader takes to its end, without error, as 0 if and only if `n` is 0, as the same number if it is small, and else as significand and binary exponent of exactly that number: for both types while at most 2500 digits are asked for, for readers of doubles up to about 15000, and in general while the exponent leaves the ring room for the digits. Beyond that it is within the stated error of it |
| FormatText.PrintFixed | lib/goblibc/src/format.c:908-1105 | The text that `%f` writes denotes a number at most half a unit of the last decimal asked for off the one given, and on one side what was cut off; it is that number rounded, half to even while nothing was cut. With `k` the last group of nine digits behind the point that the rounded number needs, exactly the decimals asked for are written if and only if they are at most 9k, or 9k + 9 of them; 9k + 9 are written otherwise. For a result of 0 the group is stated from the number before the round |
| FormatText.PrintScientific | lib/goblibc/src/format.c:908-1130 | The text that `%e` writes, with its exponent, denotes a number at most half a unit of the last digit asked for off the one given, and on one side what was cut off; it is that number rounded, half to even while nothing was cut, and the exponent is that of the result. With `d` the digits that the rounded number needs behind its first one, to a whole group of nine, the digits asked for are written if and only if they are at most d, or d + 18; d + 18 are written otherwise |
| FormatText.PrintOne | lib/goblibc/src/format.c:1097-1104 | An input: `%f` of 1 with six decimals asked for writes nine |
| FormatText.PrintOneScientific | lib/goblibc/src/format.c:1106-1130 | An input: `%e` of 1 with six digits asked for writes eighteen |
| FormatText.LastGroupIs | lib/goblibc/src/format.c:958-1015 | The last limb, which is never 0, is the last group of nine digits that the number needs: it is a whole multiple of units of that group and of no larger one |
| FormatText.OneLastGroup | lib/goblibc/src/format.c:958-1015 | A number has one such group |
| FormatText.WriteFixed | lib/goblibc/src/format.c:1081-1105 | The limbs are written as a numeral without superfluous zeros in front that denotes the number printed; it has the decimals asked for exactly when the limbs have them or lack just nine, because the padding always writes nine zeros |
| FormatText.WriteScientific | lib/goblibc/src/format.c:1061-1130 | The same with one digit before the point and the exponent behind, read back as numeral and exponent; the padding, if any, is eighteen zeros |
| FormatText.WriteSignificand | lib/goblibc/src/format.c:1106-1122 | The part before the exponent |
| FormatText.WriteLimbs | lib/goblibc/src/format.c:1097-1117 | The loops over the limbs write the digits of the number up to the place asked for |
| FormatText.WriteWhole | lib/goblibc/src/format.c:1085-1094 | The limbs before the point as digits, 0 if there are none |
| FormatText.FixedDigits | lib/goblibc/src/format.c:1083-1104 | Whole part, point, decimals and padding |
| FormatText.ScientificDigits | lib/goblibc/src/format.c:1110-1117 | First digit, point, further digits and padding |
| FormatText.WriteExponent | lib/goblibc/src/format.c:1061-1065 | The exponent is read back as the number it is, sign and leading 0 included |
| FormatText.ExponentOf | lib/goblibc/src/format.c:1061-1112 | The exponent counted from the limbs is the place of the first digit written |
| FormatText.ShownIs | lib/goblibc/src/format.c:1083-1084 | The limbs that are written, zeros before the first one included, are the number |
| FormatText.SameNumber | lib/goblibc/src/format.c:1097-1104 | Cut where asked, or padded with zeros, the digits denote the number |
| FormatText.ReadsSame | lib/goblibc/src/format.c:1106-1130 | The reader ends the numeral where the writer did and finds the same exponent |
| FormatText.NumeralLength | lib/goblibc/src/format.c:1106-1122 | What `%e` writes is at most two characters longer than its decimals, and all its digits count for the reader |
| FormatText.ExponentRange | lib/goblibc/src/format.c:934-956 | The decimal exponents of the numbers of both types, what was cut off included |
| FormatText.KeptAll | lib/goblibc/src/floatscan.c:64-127 | So the ring of the reader has room for every digit under the stated condition |
| FormatText.LimbText | lib/goblibc/src/format.c:301-311 | A limb as digits without leading zeros |
| Brainfuck.RunsLikeItsTree | apps/brainfuck/main.c:96-187 | For every balanced program whose loop bodies hold no character that a scan takes for a mismatch, store and input: iterating `step_code` on the flat text runs as the structured loops of its tree, with the same tape, output and end, waiting for input included; a pointer outside the tape stops both. What each command does is `Brainfuck.SetsCell` to `Brainfuck.Ignored` |
| Brainfuck.ScansMeet | apps/brainfuck/main.c:138-184 | The scan forward finds the matching bracket if and only if all characters between are below `code_len`, the scan backward if and only if none is negative, at any nesting depth |
| Brainfuck.BalancedIsProgram | apps/brainfuck/main.c:96-187 | A text is balanced if and only if it is the text of some tree |
| Brainfuck.PartnerlessBrackets | apps/brainfuck/main.c:138-184 | Where characters lie in 0 to the length of the text: over a 0 cell an opening bracket ends the run as a success, and over another cell a closing one starts the text again, if and only if it has no partner, a bracket with balanced text between |
| Brainfuck.ForwardPartner | apps/brainfuck/main.c:141-158 | On such texts the scan forward ends at a bracket if and only if it is the partner, and runs to the end if and only if there is none |
| Brainfuck.BackwardPartner | apps/brainfuck/main.c:166-183 | The scan backward ends at a bracket if and only if it is the partner, and runs off the front if and only if there is none |
| Brainfuck.NeverUnmatched | apps/brainfuck/main.c:138-184 | On such texts no call ever reports an unmatched bracket |
| Brainfuck.LonelyBrackets | apps/brainfuck/main.c:138-187 | Both behaviours at texts of 512 characters: `[` alone succeeds, `+]` starts again for ever |
| Brainfuck.SetsCell | apps/brainfuck/main.c:115-124 | From a cleared machine, n times `>` and m times `+`, for n below 300, leave m modulo 256 in cell n and 0 in every other one, and the next call is a success |
| Brainfuck.Clears | apps/brainfuck/main.c:138-184 | `[-]`, anywhere in a text of 128 characters or more: the cell is 0 after 1 + 2 v calls, v being its value, and all else is as it was |
| Brainfuck.Adds | apps/brainfuck/main.c:115-184 | `[->+<]` adds the cell to its right neighbour modulo 256 and clears it, in 1 + 5 v calls |
| Brainfuck.Echoes | apps/brainfuck/main.c:128-137 | `,.` waits for a key however long, stores its byte and prints it |
| Brainfuck.LeavesMemory | apps/brainfuck/main.c:110-127 | `<` from cell 0, and `>` from behind the last cell, end the run out of bounds at the next call |
| Brainfuck.Ignored | apps/brainfuck/main.c:114-186 | Any character but the eight does nothing but take a call |
| Brainfuck.OneTest | apps/brainfuck/main.c:138-184 | A bracket goes on behind the loop if the cell is 0 and at its body if not, at either end of it |
| Brainfuck.OnePlus | apps/brainfuck/main.c:116-118 | `+` counts the cell up modulo 256 and changes nothing else |
| Brainfuck.OneMinus | apps/brainfuck/main.c:119-121 | `-` counts it down |
| Brainfuck.OneRight | apps/brainfuck/main.c:122-124 | `>` moves the pointer up by one |
| Brainfuck.OneLeft | apps/brainfuck/main.c:125-127 | `<` moves it down by one |
| Brainfuck.OneDot | apps/brainfuck/main.c:128-130 | `.` prints the cell |
| Brainfuck.Machine.StepCode | apps/brainfuck/main.c:96-187 | One call equals the specification `Step` on tape, pointer, offset, output and result; what that does to a tape is stated without it in the laws from `Brainfuck.SetsCell` on |
| Brainfuck.Machine.ScanForward | apps/brainfuck/main.c:138-159 | The scan loop ends where `Forward` does, with the same verdict |
| Brainfuck.Machine.ScanBackward | apps/brainfuck/main.c:163-184 | The scan loop ends where `Backward` does, with the same verdict |
| Brainfuck.Machine.constructor | apps/brainfuck/main.c:67-74 | A cleared tape and offset 0 |
| Brainfuck.ForwardOver | apps/brainfuck/main.c:141-158 | A scan forward passes over any program with its counter unchanged |
| Brainfuck.ForwardOverLoop | apps/brainfuck/main.c:141-158 | The same from a loop on |
| Brainfuck.BackwardOver | apps/brainfuck/main.c:166-183 | A scan backward passes over any program with its counter unchanged |
| Brainfuck.BackwardOverLoop | apps/brainfuck/main.c:166-183 | The same from a loop on |
| Brainfuck.Follows | apps/brainfuck/main.c:96-187 | Induction step of the theorem: from any place of a program in a text, with any input |
| Brainfuck.FollowsPrim | apps/brainfuck/main.c:115-137 | One command |
| Brainfuck.FollowsLoop | apps/brainfuck/main.c:138-159 | Entering or skipping a loop |
| Brainfuck.IterateFollows | apps/brainfuck/main.c:163-187 | A turn of a loop |
| Brainfuck.TestFollows | apps/brainfuck/main.c:163-187 | The jump back or the way out |
| Brainfuck.FlattenBalanced | apps/brainfuck/main.c:96-187 | The text of a tree changes no bracket balance |
| Brainfuck.Parse | apps/brainfuck/main.c:96-187 | Every balanced text splits into a tree and what follows it |
| Calc.CalculatesTheTree | apps/calc/main.c:986-999 | For every expression tree whose text has the brackets its shape needs, and that fits the arrays: the text compiles to its postfix form and running that gives the value of the tree, in which an operator applies the arithmetic to the value of its left operand and that of its right one, in this order |
| Calc.Compiles | apps/calc/main.c:229-320 | The compiler half, for any array size, whatever follows the end of the text |
| Calc.Evaluates | apps/calc/main.c:322-375 | The machine half: running the postfix form pushes the value of the tree; `Calc.OneOperation` says which operand is which |
| Calc.BracketedMeansTheSame | apps/calc/main.c:127-168 | Brackets put only where precedence and left associativity ask for them make any tree printable and change neither code nor value; where none are missing none are put |
| Calc.Unambiguous | apps/calc/main.c:229-320 | Two trees with the same text have the same code |
| Calc.OneOperation | apps/calc/main.c:333-366 | Two numbers and an operator: the arithmetic is applied to the first and the second number, in this order; `%` yields the fixed number |
| Calc.TwoNumbers | apps/calc/main.c:229-320 | What each of the five operator characters between any two numbers compiles to |
| Calc.TightFirst | apps/calc/main.c:127-168 | Of three numbers, `*`, `/` and `%` on the right go before `+` and `-` on the left |
| Calc.LeftFirst | apps/calc/main.c:127-168 | In all other cases the left operator goes first |
| Calc.BracketsLeft | apps/calc/main.c:284-298 | Brackets around the first two numbers go first |
| Calc.BracketsRight | apps/calc/main.c:284-298 | So do brackets around the last two |
| Calc.TwoPoints | apps/calc/main.c:262-275 | A number with a second point is refused, whatever follows and wherever it stands |
| Calc.UnknownCharacter | apps/calc/main.c:306-311 | Behind any expression a character that is neither digit, point, space, bracket nor operator is refused |
| Calc.LoneBracket | apps/calc/main.c:284-318 | A bracket that is not closed, or not opened, goes unnoticed: the value is that of the expression |
| Calc.TooManyNumbers | apps/calc/main.c:242-246 | A hundred numbers fill the array for the code; one character more is refused |
| Calc.TooFewNumbers | apps/calc/main.c:333-350 | An operator without two numbers before it is an error, and so is no number at all |
| Calc.PostfixOdd | apps/calc/main.c:314-318 | Code always has an odd length, so 100 places suffice for 99 instructions |
| Calc.Compiler.ParseInput | apps/calc/main.c:229-320 | The loop equals the specification `Parse`: code, length and error, for every text on which the original stays inside its arrays |
| Calc.Compiler.OnDigit | apps/calc/main.c:255-283 | A number becomes one constant, or the error for a second point |
| Calc.Compiler.OnOperator | apps/calc/main.c:299-311 | Pops and pushes as `Parse` says, or the error for a character that is no operator |
| Calc.Compiler.MoveOps | apps/calc/main.c:301-305 | The pop loop equals `PopOps` |
| Calc.Compiler.MoveToBracket | apps/calc/main.c:290-297 | The pop loop equals `PopToBracket` |
| Calc.Compiler.MoveTop | apps/calc/main.c:294 | Moves the top of the stack to the code |
| Calc.Compiler.ReadNumber | apps/calc/main.c:257-280 | The number loop equals `ScanNumber` and copies its text |
| Calc.Compiler.PushInstr | apps/calc/main.c:287 | Pushes one entry |
| Calc.Compiler.AddConstant | apps/calc/main.c:281 | Adds one constant |
| Calc.Compiler.Flush | apps/calc/main.c:314-318 | Empties the stack onto the code, last in first out |
| Calc.Execute | apps/calc/main.c:322-375 | The loop equals the specification `Run`, failure on too few operands included; `Calc.OneOperation` and `Calc.TooFewNumbers` say what that does |
| Calc.NumberStack.Push | apps/calc/main.c:216-219 | Pushes one number |
| Calc.NumberStack.Pop | apps/calc/main.c:205-214 | Gives back the last number pushed, or fails on an empty stack |
| Calc.NumberStack.constructor | apps/calc/main.c:200-204 | Empty |
| Calc.CharOf | apps/calc/main.c:170-190 | Operator characters, their operations and both precedence functions agree |
| Calc.Reads | apps/calc/main.c:240-313 | Induction step: reading the text of a tree anywhere emits its code but for the operators still pending |
| Calc.ReadsBin | apps/calc/main.c:299-311 | For a binary operation |
| Calc.ReadsParen | apps/calc/main.c:284-298 | For brackets |
| Calc.PopsPending | apps/calc/main.c:301-305 | Pending operators at least as tight are popped, the stack below stays |
| Calc.PopsToBracket | apps/calc/main.c:290-297 | A closing bracket pops exactly the operators since its partner |
| Calc.EmittedPending | apps/calc/main.c:314-318 | Code emitted plus pending operators is the postfix form |
| Calc.ScansNumber | apps/calc/main.c:257-280 | A well-formed number is read to its end |
| HashMaps.HashMap.Put | kernel/hashmap/hashmap.h:336-364 | Refines the update of a finite map, through a rehash and back, and terminates; a pair goes to the slot of its key or the lowest free one of its window; it fails if and only if the key is empty, or the table has grown to 2^31 slots and is full or has the window of the key full of other keys, and then no pair is lost. It fails for certain when eight other keys of the hash of the key are in the map already. By the hashes alone, a put that fails has 2^31 keys in the map, or eight other ones whose hash times 2654435769 modulo 2^32 lies less than 16 from the key's |
| HashMaps.HashMap.Get | kernel/hashmap/hashmap.h:366-389 | Refines lookup |
| HashMaps.HashMap.Remove | kernel/hashmap/hashmap.h:391-419 | Refines removal, with the result telling whether the key was there; no other key is hidden |
| HashMaps.HashMap.Rehash | kernel/hashmap/hashmap.h:677-710 | Fails if and only if the capacity is 2^31 already, with nothing changed; otherwise the capacity doubles and the map is the same |
| HashMaps.HashMap.MoveAll | kernel/hashmap/hashmap.h:690-703 | The loop leaves the new table with the whole map |
| HashMaps.HashMap.KeepsOut | kernel/hashmap/hashmap.h:652-655 | A table that refuses a key is full or has eight keys with homes near its home |
| HashMaps.HashMap.MoveTo | kernel/hashmap/hashmap.h:661-672 | Moving the pairs in the order of their slots, each finds a free slot in its new window, so no put into the new table rehashes again |
| HashMaps.HashMap.Find | kernel/hashmap/hashmap.h:623-659 | Finds the slot of the key or the lowest free one of its window; gives up exactly when the table is full or the window is, with other keys |
| HashMaps.HashMap.Probe | kernel/hashmap/hashmap.h:373-388 | Finds a key if and only if it is in the map |
| HashMaps.HashMap.Blank | kernel/hashmap/hashmap.h:405-409 | Emptying one slot removes one key |
| HashMaps.HashMap.Fill | kernel/hashmap/hashmap.h:351-361 | Filling the slot found updates the map and the size |
| HashMaps.HashMap.NumEntries | kernel/hashmap/hashmap.h:501-504 | The size field counts the slots in use and the keys of the map |
| HashMaps.HashMap.constructor | kernel/hashmap/hashmap.h:322-333 | A zeroed table is the empty map |
| HashMaps.Home | kernel/hashmap/hashmap.h:617-621 | For any 32-bit hash the home slot lies in the table; which one it is says `HashMaps.HomeIs` |
| HashMaps.HomeIs | kernel/hashmap/hashmap.h:617-621 | The home slot times 2^(32 - log2) is at most the hash times 2654435769 modulo 2^32, and the next slot times that is more |
| HashMaps.ProductsDiffer | kernel/hashmap/hashmap.h:617-621 | Multiplication by 2654435769 modulo 2^32 takes no two 32-bit hashes to the same word |
| HashMaps.HomesOfTwo | kernel/hashmap/hashmap.h:617-621 | So in the largest table no three different hashes share a home slot |
| HashMaps.JamGathers | kernel/hashmap/hashmap.h:645-655 | What keeps a key out of the largest table, by the hashes alone |
| HashMaps.PutAll | kernel/hashmap/hashmap.h:336-364 | Keys of which no nine have products less than 16 apart are all taken, one after another, and the map is the pairs stored |
| HashMaps.NineTaken | kernel/hashmap/hashmap.h:336-364 | An input: nine keys of the hashes 1 to 9 are taken and found |
| HashMaps.HoldsPut | kernel/hashmap/hashmap.h:351-361 | Filling a free slot, or the own one, keeps keys unique |
| HashMaps.HoldsRemove | kernel/hashmap/hashmap.h:405-409 | Emptying a slot without a tombstone loses no other key |
| HashMaps.NotInWindow | kernel/hashmap/hashmap.h:373-388 | A key not seen in its whole window is not in the map |
| HashMaps.CountIsSize | kernel/hashmap/hashmap.h:358-361 | Slots in use and keys are equally many |
| HashMaps.WindowIsCrowd | kernel/hashmap/hashmap.h:652-655 | A full window holds eight different keys with homes within a window of the one that finds no place |
| HashMaps.OneHashOnly | kernel/hashmap/hashmap.h:645-655 | Eight keys of one hash fill its window at every capacity, so a ninth never finds a place |
| HashMaps.HashMap.StaysOut | kernel/hashmap/hashmap.h:336-364 | So with eight other keys of its hash in the map, a key is refused by the table of every capacity |
| HashMaps.HomeDoubles | kernel/hashmap/hashmap.h:617-621 | Doubling the capacity puts a home slot 2h or 2h+1 in place of h |
| HashMaps.MeetsFew | kernel/hashmap/hashmap.h:677-703 | A pair that lay i - g slots behind its home meets at most as many pairs at its new one |
| HashMaps.HasRoom | kernel/hashmap/hashmap.h:690-703 | So a window of eight always has a free slot for it |
| HashMaps.MovedNext | kernel/hashmap/hashmap.h:690-703 | And its own new slot keeps that true for the pairs to come |
| HashMaps.JamIsLarge | kernel/hashmap/hashmap.h:652-655 | Fewer than eight pairs never make a put fail |
| HashMaps.SplitsEnd | kernel/hashmap/hashmap.h:697-708 | When the old table is empty the new one is the whole map |
| Heaps.Heap.Malloc | kernel/heap.c:62-90 | First fit: fails if and only if the size is 0 or no free block is large enough; the block handed out is cut to the request exactly when more than twice it and 32 bytes are there, and is left whole otherwise; all other blocks in use keep place and size, blocks tile the heap and no two neighbours are free |
| Heaps.Heap.Free | kernel/heap.c:208-222 | Frees exactly the block given, keeps all others, and leaves no two free neighbours |
| Heaps.Heap.Realloc | kernel/heap.c:150-206 | Stays in place if and only if the block, or with the free one behind it, is large enough, with exactly the size asked for or, when less than 32 bytes would be left, the size it had; otherwise moves to the first fit, its size as `Malloc` leaves it; room for the old data, all other blocks and the tiling; fails only when nothing fits |
| Heaps.Heap.constructor | kernel/heap.c:10-19 | One free block tiles the heap |
| Heaps.Heap.Split | kernel/heap.c:22-36 | The repaired split cuts a block in two and keeps the chain |
| Heaps.Heap.Merge | kernel/heap.c:39-60 | Both directions join two neighbours into the first, with the store through a null link guarded |
| Heaps.Heap.MergeBack | kernel/heap.c:216-218 | The first loop ends with no free block before |
| Heaps.Heap.MergeFront | kernel/heap.c:219-221 | The second loop ends with no free neighbours at all |
| Heaps.Heap.Shrink | kernel/heap.c:154-162 | Cuts a block in use and joins the rest with a free follower |
| Heaps.Heap.CutTail | kernel/heap.c:155 | The cut alone |
| Heaps.Heap.CutTailJoins | kernel/heap.c:157-161 | The join alone |
| Heaps.Heap.Grow | kernel/heap.c:167-171 | Takes the free block behind and gives the rest back |
| Heaps.SplitAsWritten | kernel/heap.c:22-36 | `split` as written keeps the chain if and only if the block was the last one |
| Heaps.StaleLinkSwallows | kernel/heap.c:22-47 | The stale link it leaves makes a later merge swallow the block it cut off |
| Heaps.SplitFits | kernel/heap.c:24-32 | The repaired split keeps the chain if and only if there is room for another header |
| Heaps.GrowFits | kernel/heap.c:167-171 | Growing in place keeps the chain if and only if both blocks together have room for the request beside one header; the guard of the original is wider by a header |
| Heaps.GrowsIntoNext | kernel/heap.c:167-171 | An input: a request for 104 bytes where both blocks have 112 passes the guard, and leaves a header of size 2^32 - 8 across the header of the next block in use |
| Heaps.SplitKeepsChain | kernel/heap.c:22-36 | The repaired split keeps links, tiling and order |
| Heaps.MergeKeepsChain | kernel/heap.c:50-55 | Merging keeps links, tiling and order |
| Heaps.MergeEitherWay | kernel/heap.c:43-55 | Merging backward equals merging the predecessor forward |
| Heaps.SizesAddUp | kernel/heap.c:10-19 | Sizes plus headers add up to the heap size |
| Heaps.Ordered | kernel/heap.c:10-60 | Blocks never overlap |
| Heaps.PayloadsApart | kernel/heap.c:62-90 | Live payloads are disjoint and inside the heap |
| Heaps.MergeQuiet | kernel/heap.c:216-221 | Merging two free neighbours frees and loses no block in use |
| Heaps.SplitUse | kernel/heap.c:80-83 | Splitting a free block changes no block in use |
| Heaps.SplitUsed | kernel/heap.c:155 | Splitting a block in use keeps it in use with its new size |
| Heaps.MergeUsed | kernel/heap.c:169 | A block in use that takes its free follower keeps all others |
| Heaps.FlagKeepsChain | kernel/heap.c:82-86 | Marking a block changes no link |
| Pagers.Pager.NewPage | kernel/pager.c:201-243 | The lowest free frame, or the one asked for, is mapped at the lowest unmapped page; other translations are unchanged; free frames, frames mapped by exactly one page, and frames of other tables partition memory afterwards if and only if the frame lay in the first free block, was not the last of all, and was at one of its ends or there was no other block; that is so for the lowest free frame; the kernel's own pages stay mapped to themselves |
| Pagers.Pager.FreePage | kernel/pager.c:245-264 | The page, its address rounded up, is unmapped and its frame free again; nothing else changes; an unmapped page changes nothing; the kernel's own pages stay mapped to themselves if and only if the page is above them |
| Pagers.Pager.PagerRemove | kernel/pager.c:39-69 | Takes a page from the first free block in any of its four branches; the list stays a list, without that page and nothing else, if and only if the page is `Clean` |
| Pagers.TakesPage | kernel/pager.c:39-69 | The condition is exact: a page that does not lie in the first block, or in its middle while another block follows, breaks the list |
| Pagers.MappedNotClean | kernel/pager.c:203-206 | A frame that is already mapped never meets it, so mapping it again breaks the list |
| Pagers.NotClean | kernel/pager.c:39-69 | One direction of it, over all branches and wrap-around |
| Pagers.RemoveEnd | kernel/pager.c:51-54 | Moving the end of the block takes exactly one page |
| Pagers.RemoveMiddle | kernel/pager.c:56-68 | Splitting the only block takes exactly one page |
| Pagers.StartKernel | kernel/main.c:207-212 | The loop that maps the kernel ends, with pages 0 to 1023 mapped to the frames of the same number, all frames above free, and one page table made |
| Pagers.TablesKept | kernel/main.c:209-212 | While those pages stay mapped that way, no frame of the area for page tables is free, of another table, or mapped by any page but its own |
| Pagers.Pager.PagerFill | kernel/pager.c:71-112 | Puts one page back, into a neighbour or as its own entry, with the list still sorted, disjoint and linked |
| Pagers.Pager.InsertNode | kernel/pager.c:91-111 | The new entry is linked between its neighbours |
| Pagers.Pager.GetFreePageIndex | kernel/pager.c:146-163 | The lowest unmapped page, or the error value if there is none |
| Pagers.Pager.VirtToPhys | kernel/pager.c:12-28 | Translates through both table levels, error value included |
| Pagers.Pager.MapPage | kernel/pager.c:217-240 | Maps one page, with a new table if need be, and changes no other translation; the entry keeps its flags and gains present, writeable, write-through and those asked for, and so does a new directory entry |
| Pagers.ChosenIs | kernel/pager.c:203-206 | The page chosen for an address is the lowest page at or above it, and page 0 for the last addresses of all; without an address it is the one offered |
| Pagers.FlagsStay | kernel/pager.c:234-264 | Freeing a page clears no flag but the first: the next page mapped in its place has the flags of both |
| Pagers.Pager.constructor | kernel/pager.c:177-199 | All memory is free, nothing is mapped |
| Pagers.Sorted | kernel/pager.c:71-77 | Free blocks come in order and do not overlap |
| Pagers.WholePages | kernel/pager.c:71-112 | A page is free as a whole or not at all |
| Pagers.Lowest | kernel/pager.c:208-210 | The first entry starts at the lowest free address |
| Pagers.RemoveWhole | kernel/pager.c:41-46 | Dropping the first entry frees nothing else |
| Pagers.RemovePart | kernel/pager.c:47-50 | Moving its start takes exactly one page |
| Pagers.GapBounds | kernel/pager.c:75-79 | The gap found has room for the page |
| Pagers.FillBefore | kernel/pager.c:81-84 | Extending the entry before adds exactly the page |
| Pagers.FillAfter | kernel/pager.c:86-89 | Extending the entry behind adds exactly the page |
| Pagers.FillBetween | kernel/pager.c:91-111 | A new entry adds exactly the page |
| Pagers.PutTranslates | kernel/pager.c:234-240 | Writing one table entry changes one translation |
| Pagers.NewTableTranslates | kernel/pager.c:220-232 | A fresh empty table changes no translation |
| Pagers.OwnedMap | kernel/pager.c:201-243 | Mapping a free frame keeps the partition |
| Pagers.OwnedUnmap | kernel/pager.c:262-263 | Unmapping it keeps the partition |
| ProcessRing.Scheduler.Tick | kernel/interrupts/irq_handlers.c:24-62 | For any ring with a process that is ready, sleepers included: a tick terminates, picks the first one that is ready, woken if it was due, removes exactly the terminated ones passed and those behind one that sleeps on and is not removed itself, keeps the ring well formed and all others as they were, and moves the clock |
| ProcessRing.Scheduler.GoOn | kernel/interrupts/irq_handlers.c:36-57 | The loop, from the process behind the current one on |
| ProcessRing.Scheduler.MoveClock | kernel/interrupts/irq_handlers.c:26-30 | The clock of the handler moves as `Advance` says |
| ProcessRing.NeverPicks | kernel/interrupts/irq_handlers.c:36-57 | When no process is ready the loop never comes to one that can run, however often it turns; the ring may become empty on the way |
| ProcessRing.Removed | kernel/interrupts/irq_handlers.c:40-52 | Exactly which processes a tick removes |
| ProcessRing.RunningRemoved | kernel/interrupts/irq_handlers.c:40-52 | A ring on which a running process is removed, because the one before it sleeps on |
| ProcessRing.SleepersBefore | kernel/interrupts/irq_handlers.c:36-57 | A process is removed in the place of a sleeper exactly when an odd number of processes that sleep on stand just before it |
| ProcessRing.PickedIs | kernel/interrupts/irq_handlers.c:36-57 | The process picked was running, or asleep with both parts of its time reached; one that the tick passed over was not, or stood behind a sleeper |
| ProcessRing.DueIs | kernel/interrupts/irq_handlers.c:41 | At every value the clock takes, the test for waking sees a time that has passed if and only if it is also no later within its second, and is not the start of the second that the clock still counts as 1000 milliseconds |
| ProcessRing.PassedUnseen | kernel/interrupts/irq_handlers.c:26-41 | Two inputs: at (2, 10) the wake time (1, 500) has passed and is not seen, nor is (1, 0) at (0, 1000) |
| ProcessRing.DueInTime | kernel/interrupts/irq_handlers.c:26-41 | A time that has passed is seen at one of the next hundred ticks |
| ProcessRing.NoneKilled | kernel/interrupts/irq_handlers.c:40-52 | Without sleepers only terminated processes go |
| ProcessRing.Scheduler.PassOver | kernel/interrupts/irq_handlers.c:36-57 | One turn of the loop for every state is `Turn`: a suspended process is passed, a terminated one removed, a sleeping one woken when due; one not due is passed and the process behind it removed, whatever its state |
| ProcessRing.Fair | kernel/interrupts/irq_handlers.c:35-57 | A process that stays ready is picked within as many ticks as the ring has members |
| ProcessRing.AwakeReady | kernel/interrupts/irq_handlers.c:35-57 | With no process asleep, staying running is staying ready |
| ProcessRing.FairFrom | kernel/interrupts/irq_handlers.c:35-57 | The same from any place in the ring |
| ProcessRing.Closer | kernel/interrupts/irq_handlers.c:35-57 | A tick that does not pick a process that is ready brings it nearer by the processes passed |
| ProcessRing.ClockAdvances | kernel/interrupts/irq_handlers.c:26-30 | Each tick adds ten milliseconds to the clock as a whole, which stays between 0 and 1000 milliseconds in whole hundredths |
| ProcessRing.WalkNext | kernel/interrupts/irq_handlers.c:36-57 | One turn of the loop comes to the next member, or to the one behind it if that is removed, and does not leave the ring while one is ready |
| ProcessRing.Scheduler.PassOneOver | kernel/interrupts/irq_handlers.c:36-57 | The same for the code, until a process is woken |
| ProcessRing.Scheduler.Wake | kernel/interrupts/irq_handlers.c:42 | Changes one state |
| ProcessRing.Scheduler.DropCurrent | kernel/interrupts/irq_handlers.c:47-52 | The process passed leaves the ring, its successor becomes current |
| ProcessRing.Scheduler.RemoveBehind | kernel/interrupts/irq_handlers.c:51 | Removal by id removes the process just passed |
| ProcessRing.Scheduler.CreateProcess | kernel/process.c:29-125 | A new process with a new id goes right before the first one; all others stay |
| ProcessRing.Scheduler.CreateNext | kernel/process.c:49-125 | The case of a ring that is not empty |
| ProcessRing.Scheduler.RemoveProcess | kernel/process.c:140-177 | The process with the id leaves, the others keep order and state; an unknown id changes nothing |
| ProcessRing.Scheduler.DropMember | kernel/process.c:163-175 | Unlinking one member of the ring |
| ProcessRing.Scheduler.Search | kernel/process.c:142-149 | The search loop terminates, and fails if and only if no process has the id |
| ProcessRing.Scheduler.SetCurrentProcess | kernel/process.c:179-193 | Selects the process with the id, or changes nothing |
| ProcessRing.Scheduler.GetNextProcess | kernel/process.c:199-203 | Moves one place on |
| ProcessRing.InsertLinked | kernel/process.c:57-63 | Inserting between last and first keeps the ring linked both ways |
| ProcessRing.InsertBefore | kernel/process.c:57-63 | The same at any place |
| ProcessRing.RemoveLinked | kernel/process.c:163-167 | Unlinking keeps the ring linked both ways |
| ProcessRing.RotateLinked | kernel/process.c:199-203 | The ring reads the same from the next member |
| ProcessRing.ReadFrom | kernel/process.c:179-193 | The ring reads the same from any member |
| Arith64.DivMod | lib/goblibc/src/arith64.c:77-121 | For all 64-bit numbers, quotient and remainder are right, and only a zero divisor traps |
| Arith64.LongDivision | lib/goblibc/src/arith64.c:106-120 | The branch-free loop divides exactly, for divisors above 2^63 too |
| Arith64.UDiv | lib/goblibc/src/arith64.c:124-127 | The quotient |
| Arith64.UMod | lib/goblibc/src/arith64.c:130-135 | The remainder |
| Arith64.Clz | lib/goblibc/src/arith64.c:51-70 | For nonzero input, the position of the highest bit; 63 for 0 |
| Arith64.ClzStep | lib/goblibc/src/arith64.c:54-68 | One halving step keeps what is known of the highest bit |
| Arith64.ClzEnd | lib/goblibc/src/arith64.c:69 | The last step |
| Arith64.MaskCompares | lib/goblibc/src/arith64.c:115 | The sign-extended mask equals the comparison, despite wrap-around |
| Arith64.DivideStep | lib/goblibc/src/arith64.c:113-116 | One round keeps numerator so far = quotient so far times divisor plus remainder, with the remainder below the divisor and no bit lost |
| Arith64.DivideBits | lib/goblibc/src/arith64.c:113-114 | The bits shifted out of the numerator and the quotient bits shifted in share one word |
| Arith64.DivideStart | lib/goblibc/src/arith64.c:107-110 | The first remainder is below the divisor, because of the leading zeros |
| Arith64.StartBits | lib/goblibc/src/arith64.c:107 | Between 1 and 63 rounds |
| Arith64.DivideEnd | lib/goblibc/src/arith64.c:118-120 | The last shift gives the quotient |
| Fmod.FMod | lib/goblibc/src/fmath.c:250-334 | For all bit patterns: when the result is not a number; otherwise, in units of the smallest subnormal, exactly the remainder of x by y, with the sign of x |
| Fmod.ShortRemainder | lib/goblibc/src/fmath.c:299-317 | The loop computes mx * 2^(ex-ey) mod my |
| Fmod.LongRemainder | lib/goblibc/src/fmath.c:126-150 | The same for 64-bit significands, with the branch in which doubling wraps around |
| Fmod.LongNormalise | lib/goblibc/src/fmath.c:151-153 | Normalising keeps the number |
| Fmod.Normalise | lib/goblibc/src/fmath.c:275-297 | Normal and subnormal numbers as 53-bit significand and exponent, exactly |
| Fmod.Denormalise | lib/goblibc/src/fmath.c:318-331 | Packing a remainder, subnormal ones included, is exact |
| Fmod.BitsOrder | lib/goblibc/src/fmath.c:268 | Comparing bit patterns compares magnitudes |
| Fmod.BitsMean | lib/goblibc/src/fmath.c:252-267 | Not a number, finite and zero, and the sign, by the bits of a double |
| Fmod.UnitsNext | lib/goblibc/src/fmath.c:252-297 | From 0 on each double lies one unit in the last place above the one before, which fixes the value of every one |
| Fmod.ExponentsOrder | lib/goblibc/src/fmath.c:300 | The larger number has no smaller exponent |
| Fmod.RemainderUnits | lib/goblibc/src/fmath.c:299-317 | The remainder of significands is the remainder of the numbers |
| Fmod.Round | lib/goblibc/src/fmath.c:128-142 | Subtract-and-double keeps the remainder |
| Fmod.LastRound | lib/goblibc/src/fmath.c:144-150 | The last subtraction gives it |
| IntScan.IntScan | lib/goblibc/src/intscan.c:28-129 | For every text, base and limit: the value of the digit run, or the limit and its error, and where the reader stops, equal to the one-pass specification `Scan`; what that reads is stated without it in `IntScan.ReadsSigned`, `IntScan.ReadsNothing` and `IntScan.BarePrefix` |
| IntScan.ReadsBack | lib/goblibc/src/format.c:287-311 | What the decimal, hexadecimal and octal printers write for a nonzero 64-bit number is read back as that number, stopping right behind its last digit |
| IntScan.ReadsSigned | lib/goblibc/src/intscan.c:39-128 | Spaces, a sign, a prefix that settles the base and digits, against any limit: the value v, or a w with w + v divisible by 2^64 behind a minus sign, unless v is beyond the limit, odd ones being those of unsigned types; reading stops behind the last digit |
| IntScan.LimitedIs | lib/goblibc/src/intscan.c:108-128 | The same for a value and a sign alone, and what is returned beyond the limit |
| IntScan.ReadsNothing | lib/goblibc/src/intscan.c:34-79 | A base there is not, and spaces and a sign with no digit behind them: the error, and where reading stops |
| IntScan.BarePrefix | lib/goblibc/src/intscan.c:46-60 | `0x` with no digit behind it: the 0 alone if the caller lets the scan step back, and else no match |
| IntScan.DigitsAre | lib/goblibc/src/intscan.c:9-26 | The digits by their character codes: 0 to 9 and the letters of either case |
| IntScan.Accumulate | lib/goblibc/src/intscan.c:80-103 | The two-stage accumulators hold the exact value and stop only when the next digit would exceed 64 bits |
| IntScan.Finish | lib/goblibc/src/intscan.c:80-128 | The value, or its negative modulo 2^64, or the limit with its error, for any limit; `IntScan.LimitedIs` says which |
| IntScan.SkipDigits | lib/goblibc/src/intscan.c:106-107 | The rest of an overlong run is skipped |
| IntScan.RoomIs | lib/goblibc/src/intscan.c:84-101 | The three overflow tests, one per kind of base, are exact |
| IntScan.Fits32 | lib/goblibc/src/intscan.c:82-99 | The first stage never exceeds 32 bits |
| IntScan.FirstMostIs | lib/goblibc/src/intscan.c:82-99 | It goes on exactly while the largest digit of the largest base of its kind would fit |
| IntScan.ShiftIs | lib/goblibc/src/intscan.c:91 | The shift table gives the binary logarithm of the base |
| IntScan.LeadingZero | lib/goblibc/src/intscan.c:46-67 | A leading 0 that has been consumed does not change the value |
| IntScan.FormatUnsigned | lib/goblibc/src/format.c:301-311 | The digits of the number without leading zeros, in two stages; nothing for 0 |
| IntScan.FormatHex | lib/goblibc/src/format.c:287-292 | The same in base 16, with letters of the case asked for |
| IntScan.FormatOctal | lib/goblibc/src/format.c:294-299 | The same in base 8 |
| IntScan.WriteDigit | lib/goblibc/src/format.c:304-307 | Digit written in front plus what is left is the number |
| IntScan.RunEnd | lib/goblibc/src/intscan.c:104-107 | The run of digits ends at the first character that is none |
| Packers.PackedLoads | tools/EstrOSFS.cpp:82-188 | For every file of at most 266 blocks outside the forgotten sizes, the kernel loader finds through the packed inode exactly the bytes of the file, padded with zeros |
| Packers.PackedResolves | tools/EstrOSFS.cpp:114-131 | Each logical block resolves to its place in the image, except that for sizes 10241 to 11263 the eleventh is looked up in the file data itself |
| Packers.PackedData | tools/EstrOSFS.cpp:109-113 | The blocks of the image hold the file |
| Packers.SurplusPointer | tools/EstrOSFS.cpp:114-118 | A file of whole blocks, up to ten, gets one pointer too many, to the block behind its own; for ten blocks that is the single-indirect pointer |
| Packers.Packer.PackFile | tools/EstrOSFS.cpp:82-188 | Output, inode and inode number as specified |
| Packers.Packer.FillToBlock | tools/EstrOSFS.cpp:57-68 | Pads to a whole block with zeros |
| Packers.Packer.WritePointerBlock | tools/EstrOSFS.cpp:70-80 | Writes a padded table and returns its block number |
| Packers.DirectPointers | tools/EstrOSFS.cpp:102-118 | The pointer loop |
| Packers.SinglePointers | tools/EstrOSFS.cpp:124-127 | The table loop |

## Left out

- FileHandle.OpenFile.Read: lengths outside `FileHandle.ReadableLengths` are excluded, because the original then runs past its window or its counter; 32-bit wrap-around of position plus length is not modelled, since a file stays below 64 MB.
- FileHandle.Perform: the disk must have room for three blocks per block written; the original allocates without a check.
- BlockMap.RunOk: needs the same room, and positions below the triple-indirect range, which `harddrive_write_blocks` does not serve; it starts from an image that meets the invariant.
- Images.RunFromImage: images hold at most 8175 files, since the builder writes the inodes of more over the first file; they hold files only, packed one after another; the blocks of directories, whose own loop takes 48 bytes an entry for what is written with 12 and the name and so counts pointers too many or too few (tools/EstrOSFS.cpp:225-229), and the bitmaps are not part of it.
- Volumes.Volume.AllocBlock: the rest of the super block's sector, which the original fills with whatever lies on the stack, is left as it was.
- Volumes.Volume.StoreInode: an inode number of 8192 or more lies outside the table and is excluded.
- DecFloat.Scaler.Downscale: once the ring has been full, that the significand stays below 2^64 is not promised; limbs at its end may then be larger than 10^9.
- DecimalText.ReadFloat: ends where the significand, or the integer of a small number, becomes a floating-point number (lib/goblibc/src/floatscan.c:325-380); a zero's sign is not modelled; input is a string instead of a stream.
- FormatFloat.Format: signs, infinities and hexadecimal notation are not part of it; the floating-point probe is modelled as the decision it makes; numbers are given by their significand and exponent; half to even is promised while no limbs are cut, and the nearest result in any case outside the stated distance from the middle.
- FormatText.PrintFixed: field widths are not part of it (lib/goblibc/src/format.c:272-285 computes them wrongly, which is modelled for the padding inside a number), nor is the choice of style and of decimals that `%g` makes; the bound on the length of a line is not modelled.
- HashMaps.HashMap.Put: tables start zeroed, which the original asks of `calloc` and does not get (kernel/heap.c:142-148); keys are compared by content, although a rehash goes back to the default comparison (kernel/hashmap/hashmap.h:682-684); memory never runs out; the hash is any function to 32-bit words.
- HashMaps.HashMap.constructor: takes the binary logarithm of the capacity; rounding a capacity up to a power of two is not modelled.
- Heaps.Heap.Split: repaired, the block behind is linked back; `Heaps.SplitAsWritten` is about the original.
- Heaps.Heap.Merge: the store through a null link, which lands in page 0 in the original, does nothing.
- Heaps.Heap.Realloc: the branches that move data into the block before write a header over it first (kernel/heap.c:173-193) and are excluded, as is growing that leaves less than a header; the bytes moved are not modelled, only that there is room for them.
- Pagers.Pager.NewPage: while a frame other than the last, an unmapped page and room for a table if one is needed are left; the original checks none of these. One page table at a time: frames of other tables are a given set.
- Pagers.Pager.PagerRemove: not for the last free page, after which the original stores through a null link; a failing `malloc` is not modelled.
- ProcessRing.Scheduler.Tick: with some process ready; otherwise the original turns for ever or uses freed memory, which `ProcessRing.NeverPicks` is about. Freeing page tables and closing files of a removed process are not part of it.
- ProcessRing.Scheduler.PassOver: not when the last process of the ring would be removed, after which the original uses freed memory.
- ProcessRing.Scheduler.RemoveProcess: not for the current process or the last one, after which the original uses freed memory.
- ProcessRing.Scheduler.CreateProcess: the ring and the process fields the scheduler uses; names, stacks and registers are not part of it.
- Brainfuck.Machine.StepCode: a command that touches cell 300, which the original's test lets through, is excluded; output is a sequence of bytes.
- Calc.Compiler.ParseInput: texts that would overrun an array of the original are excluded by the outcome `Overrun` of the specification; numbers and arithmetic are any functions, `%` gives the constant the original pushes.
- Calc.Execute: code that would overrun the number stack is excluded in the same way.
- Fmod.LongRemainder: the loop of `fmodl` on its significands; scaling in floating point before and after it is not modelled.
- Fmod.FMod: which NaN results, and the exception flags, are not modelled.
- IntScan.IntScan: characters from 128 on, which index the table of the original outside its bounds, have no digit value; input is a string instead of a stream.
- Packers.Packer.PackFile: files of at most 266 blocks; the double-indirect loop shortens its own bound (tools/EstrOSFS.cpp:137-144), and directories are not packed.
- Directories, seeking, triple-indirect blocks and sector I/O of the file system: they would add only easy members or do not do what is intended.
- `free_pde_table` and `soft_copy_table`: frames reached through shared tables are freed twice.
- `malloc_aligned` and the allocator of the C library: no caller, and a copy of the kernel heap.
- Wide characters, terminal, editor and window code, interrupt entry and the other apps: no engine behind them.
- The C library's `vprintf.c`: not part of its build.
