# Verification of the Anaga kernel's stateful parts

Anaga is a small 32-bit x86 kernel. This project models the four parts of it that keep state and have
correctness properties over whole histories, and proves those properties with Dafny 4.11
(`dafny verify dfyconfig.toml`).

* **Kernel heap** (`include/stdlib.h`). `BlockList` describes the heap as a list of blocks and proves what
  holds for every history of calls; `KernelHeap` is the allocator itself, two list walks over 12-byte
  headers that live in the same array of 32-bit words as the payloads it hands out.
* **File system** (`include/string.h`, `fs/file.c`, `fs/vfs.c`, `tools/mkfs.py`). `CString` holds the string
  and memory loops, `InodeLayout` the 8304-byte inode record, `FileTree` the inode table as a tree, `Paths`
  and `Walks` the paths of `vfs_pwd` and `vfs_cd`, `Descriptors` and `Files` the descriptor table,
  `SectorStore` the sector codec for any record and sector size, `VfsModel`, `VfsRuns` and `Vfs` the calls,
  and `MkFs` the host tool.
* **ELF loader** (`fs/elf.c`, `fs/elf.h`): `ElfLoader`; `ElfFormat`, executables laid out field by field; and
  `BootImage`, which joins the loader to the host tool.
* **Console** (`display/display.c`, `io/kinput.c`). `Terminal` is an unbounded 80-column terminal, `Display`
  the 80x25 screen as a window on it, `Numerals` the printed numbers, `LineEditor` the line editor.

The classes keep the source's own arrays, fields and loops; each method is proved against a function of the
old state (`Malloc`, `Free`, `Create`, `ReadAt`, `WriteFile`, `Put`, `Edit`, `Load`, ...), and the properties
are proved about those functions, so they hold of every run of the methods; for the file system `SettledReady`
shows that the states of the run theorems are ones the methods can be called in. Machine arithmetic is explicit:
unsigned 32-bit sums wrap (`Machine.AddW`), and a C `char` is signed.

Points at which the code differs from what its comments, the C standard or a caller may expect; the code is
followed throughout.

* `kmalloc` rounds requests above 0xFFFFFFF8 to 0 (`MallocLive`), and then hands out the first free block: a
  block of size 0 split off it if it is larger than 12 bytes, the whole block otherwise
  (`MallocPositiveIff`). A block may be up to 12 bytes larger than the rounded request.
* `strncpy` writes one byte more than asked for when the source is shorter (section 7.24.2.4 of ISO C11 writes
  exactly n); inside an inode that byte is the last one of the name field.
* A name of 32 bytes or more is cut after the duplicate check: it is never found again, and creating it twice
  leaves two siblings of the same name (`LongNameTwice`, and `LongNameClash` on a zeroed drive). Uniqueness
  is kept exactly when no sibling has the cut name (`CreateKeepsUnique`).
* An oversized `vfs_write_file` changes memory and returns before the sync; `WriteMirroredIff` says exactly
  when a write is on the drive afterwards, and `DriveHoldsLastSync` what the drive holds after a whole run.
* A directory called ".." or "/" can be made but not entered by name, and neither can one whose name an
  earlier sibling has: the printed names of a directory lead back to it exactly when no directory on the way is
  of either kind (`PwdThenCd`; `ShadowedPath` shows that the second kind happens). Since such a directory is
  never entered, the current directory of a run that starts at the root can always be reached again
  (`PwdLeadsBack`).
* `vfs_pwd` prints a slash for the root and one before every name, so "//a" for a directory in the root.
* Tab, escape and other control characters go into the line buffer but not onto the screen; `KeyAgreesIff`
  shows that these are exactly the keys that break the agreement of the two.
* `tools/mkfs.py` opens an existing image and overwrites its first two inodes whatever the others hold;
  `InstalledTreeIff` says exactly when the kernel then finds a tree.
* The format comment in `tools/mkfs.py:29` speaks of 1024 data bytes; the code packs 8192.

## Model

| member | source | states |
|---|---|---|
| KernelHeap.Allocator.KheapInit | include/stdlib.h:18-25 | the first call writes the header of one free block spanning the heap; a later call changes no word |
| KernelHeap.Allocator.Kmalloc | include/stdlib.h:27-52 | the headers in memory again tile the heap exactly, are aligned and have no two free neighbours; list and pointer are those of first fit with splitting, for every 32-bit request; no word of a live payload changes although headers are written into the same memory |
| KernelHeap.Allocator.Take | include/stdlib.h:36-46 | the found block is split when the rest can hold a header and a byte, and the in-band headers encode the new list |
| KernelHeap.Allocator.CoalesceAll | include/stdlib.h:60-68 | the merging walk over the headers computes the coalesced list and leaves live payloads alone |
| KernelHeap.Allocator.Kfree | include/stdlib.h:54-69 | freeing NULL or a live pointer restores the invariant; no word of a payload live afterwards changes |
| KernelHeap.Allocator.ClientStore | include/stdlib.h:10-14 | an arbitrary store into a live payload touches no header, so the heap stays as it was |
| BlockList.CoalesceCanonical | include/stdlib.h:60-68 | from any tiling, whatever neighbours are free, the pass leaves no two free neighbours, keeps the tiling and keeps exactly the live blocks |
| BlockList.MallocCanonical | include/stdlib.h:27-52 | allocation keeps the aligned, coalesced tiling; sizes stay positive for requests up to 0xFFFFFFF8 |
| BlockList.MallocLive | include/stdlib.h:30-46 | a success adds one live block holding the rounded request and at most 12 bytes more, a failure changes nothing; the rounding holds the request if and only if it is at most 0xFFFFFFF8 |
| BlockList.MallocPositiveIff | include/stdlib.h:30-46 | an allocation leaves a block of size 0 if and only if the request is above 0xFFFFFFF8 and the first free block is larger than a header |
| BlockList.FreeCanonical | include/stdlib.h:54-69 | freeing keeps the coalesced tiling and removes exactly the freed block from the live ones |
| BlockList.LiveDisjoint | include/stdlib.h:27-46 | live blocks, header and payload, are pairwise disjoint and inside the heap |
| BlockList.FirstFitComplete | include/stdlib.h:34-51 | NULL exactly when no address has room between the live blocks for a header and the rounded request; otherwise the lowest such address is taken |
| BlockList.MallocRounded | include/stdlib.h:27-52 | with the request taken to the next multiple of 8: NULL exactly when no address has room for it and a 12-byte header; otherwise the pointer is 12 above the lowest such address and the one new live block is at most 12 bytes larger; `kmalloc(0)` is NULL |
| BlockList.LiveDeterminesBlocks | include/stdlib.h:60-68 | canonical form: two coalesced tilings with the same live blocks are the same list |
| BlockList.MallocThenFree | include/stdlib.h:27-69 | freeing what was just allocated restores the previous list |
| BlockList.RunCanonical | include/stdlib.h:18-69 | after every run of calls the tiling is canonical, with positive sizes if no request was above 0xFFFFFFF8 |
| BlockList.HistoryIndependent | include/stdlib.h:18-69 | two histories that leave the same live blocks leave the same list |
| BlockList.FreeOrderIrrelevant | include/stdlib.h:54-69 | freeing a set of blocks gives the same list in every order |
| BlockList.FreeAllRestoresInitial | include/stdlib.h:18-25 | freeing all live blocks in any order gives back the single free block of 0x400000-12 bytes |
| CString.StrLen | include/string.h:22-26 | the number of bytes before the first NUL |
| CString.StrCmp | include/string.h:14-20 | 0 exactly for equal strings, else the difference of the first bytes that differ |
| CString.StrNCpy | include/string.h:44-49 | the whole destination after the call, including the extra zero byte for a short source |
| CString.StrNCpyBytes | include/string.h:44-49 | byte by byte, what the destination holds afterwards |
| CString.MemSet | include/string.h:51-55 | the range holds the byte and nothing else changes |
| CString.MemCpy | include/string.h:64-71 | the range holds the source bytes and nothing else changes |
| CString.SpliceBytes | include/string.h:64-71 | byte by byte, what a copy into memory leaves |
| Machine.Le32Weights | tools/mkfs.py:29-31 | words are stored with their least significant byte first |
| InodeLayout.FieldOffsets | fs/file.h:15-23 | every field of the struct by its byte offset and byte order |
| InodeLayout.DecodeEncode | fs/file.h:15-23 | the 8304-byte layout loses nothing of a record |
| InodeLayout.EncodeDecode | fs/file.h:15-23 | and every 8304-byte image is the layout of the record read from it |
| InodeLayout.DecodeZeros | fs/vfs.c:45 | clearing an inode to zero bytes gives the free, nameless, empty record |
| SectorStore.AssembleHolds | fs/vfs.c:13-38 | for all record and sector sizes, reading a record back from the sectors it was written to is the identity |
| SectorStore.CopyBounds | fs/vfs.c:20 | the copy sizes stay inside sector and record, and together cover the record exactly |
| SectorStore.ImageBytes | fs/vfs.c:32-35 | byte by byte, what a sector of a record holds, the zeros behind its end included |
| SectorStore.HoldsKept | fs/vfs.c:31-35 | for all sizes, writing one record leaves every other as it is: no two share a sector |
| SectorStore.SyncRecord | fs/vfs.c:31-36 | after the sector loop the drive holds the record; all sectors of other records are unchanged |
| SectorStore.LoadRecord | fs/vfs.c:18-22 | the sector loop overwrites the whole record with what the drive holds, whatever it held before |
| FileTree.FindSpec | fs/file.c:7-20 | -1 exactly when no child has the name; otherwise a child with it, the only one if sibling names are unique |
| FileTree.FoundUnlessShadowed | fs/file.c:12-18 | an inode is found under its own name if and only if no earlier entry of its directory has that name |
| FileTree.FreeFromIsFirst | fs/file.c:22-27 | the first free inode, or -1 exactly when all are used |
| FileTree.CanCreateIff | fs/file.c:36-43 | a name can be created if and only if one of the 32 inodes is free, the directory has fewer than 16 entries, and none has the name |
| FileTree.NewInodeName | fs/file.c:47-48 | a new name is NUL-padded in its 32 bytes and reads back cut to 31 |
| FileTree.CreateKeepsTree | fs/file.c:36-56 | creating a file or directory keeps the tree: each used inode but the root listed exactly once, by its parent, entries bounded, all parent chains ending at inode 0 |
| FileTree.CreateKeepsUnique | fs/file.c:43-48 | sibling names stay unique if and only if no sibling has the name as stored; for at most 31 bytes that is the check made |
| FileTree.CreateThenFind | fs/file.c:36-56 | in every tree, with equal siblings or without: a name that was found keeps its answer in every directory, and of the others only the name as stored is found, in the directory it was created in, and leads to the new inode; a name of at most 31 bytes is stored whole, so it is found |
| Files.TreeSearchable | fs/file.c:12-18 | in a tree a directory scan never leaves the entry array and compares only names that end |
| Files.FindInodeInDir | fs/file.c:7-20 | the directory scan computes the lookup |
| Files.FindFreeInode | fs/file.c:22-27 | the scan finds the first free inode or answers -1 |
| Files.FileCreate | fs/file.c:36-56 | in place: the created table and inode, or -1 and no change when no inode is free, the parent is no directory, full, or has the name |
| Files.FileTable.FindFreeFd | fs/file.c:29-34 | the first unused descriptor or -1 |
| Files.FileTable.FileOpen | fs/file.c:58-70 | opens at position 0 in the first unused descriptor; -1 and no change for anything but a file or with all in use |
| Files.FileTable.FileRead | fs/file.c:72-83 | delivers the clamped range into the buffer, moves the position, and changes nothing else |
| Files.FileTable.FileWrite | fs/file.c:85-98 | stores the clamped bytes, moves the position, and grows the size when passed |
| Files.FileTable.FileClose | fs/file.c:100-102 | only the in-use flag of a valid descriptor changes |
| Files.FileTable.FileSeek | fs/file.c:104-108 | only the position of an open descriptor changes; -1 otherwise |
| Descriptors.ReadStaysInside | fs/file.c:76-80 | the copy stays in the data area if and only if the position is within the file and position plus length does not wrap; then it stops at the end of the file |
| Descriptors.WriteStaysInside | fs/file.c:89-93 | the same for writes and the 8192-byte area |
| Descriptors.OpenSpec | fs/file.c:58-70 | opening succeeds if and only if the inode is a file and a descriptor is unused; it takes the first one, at position 0, and changes nothing else |
| Descriptors.SeekSpec | fs/file.c:104-108 | a seek on an open descriptor sets any position and answers 0 |
| Descriptors.ClosedRefuses | fs/file.c:72-108 | after a close every call on the descriptor answers -1 and changes nothing, and the others are as before |
| Descriptors.RunKeepsPositions | fs/file.c:58-108 | over every run of calls on shared files each open descriptor stays at a position within its file, and the tree is kept |
| Descriptors.ReadChunks | fs/file.c:72-83 | reading in any chunking delivers the same bytes and position as one read |
| Descriptors.WriteChunks | fs/file.c:85-98 | writing in any chunking leaves the same file, size and position as one write, the clamp at 8192 included |
| Vfs.FileSystem.Load | fs/vfs.c:13-24 | the inode array becomes the table the drive holds |
| Vfs.FileSystem.Sync | fs/vfs.c:26-38 | the drive holds exactly the inode array; so a load after it is the identity on all 32 inodes |
| Vfs.FileSystem.VfsInit | fs/vfs.c:40-50 | the table of the drive, or a fresh root written back when inode 0 is no directory; current directory 0 |
| Vfs.FileSystem.VfsMkdir | fs/vfs.c:52-72 | the created directory in memory and on the drive, or -1 and no change |
| Vfs.FileSystem.VfsCd | fs/vfs.c:84-97 | "..", "/" or a child directory; -1 and no change otherwise |
| Vfs.FileSystem.VfsPwd | fs/vfs.c:99-114 | terminates within the 32 slots and prints the root and all names down to the current directory, a slash before each |
| Vfs.FileSystem.VfsTouch | fs/vfs.c:116-121 | the created file in memory and on the drive, or -1 and no change |
| Vfs.FileSystem.VfsCat | fs/vfs.c:123-141 | the printed text, and no effect beyond an unused descriptor |
| Vfs.FileSystem.VfsWriteFile | fs/vfs.c:143-161 | memory, drive and answer in every case, the oversized write included |
| Vfs.FileSystem.VfsRead | fs/vfs.c:163-172 | delivers the start of the named file, or -1 |
| Vfs.FileSystem.VfsReadAt | fs/vfs.c:173-185 | delivers the named file from an offset on, or -1 |
| VfsModel.ReadAtDelivers | fs/vfs.c:173-185 | open, seek, read and close deliver the file's bytes in range and leave tables, drive and open descriptors alone |
| VfsModel.WriteFileEffect | fs/vfs.c:143-161 | the tables in memory and on the drive after a write: equal when the content fits, memory ahead when it does not |
| VfsRuns.RunKept | fs/vfs.c:40-185 | after every run, successful or failed calls alike, memory and drive hold trees and no descriptor is in use; without oversized writes the drive equals memory; with names of at most 31 bytes sibling names are unique |
| VfsRuns.InitTreeIff | fs/vfs.c:40-50 | initialising ends in a tree if and only if the drive holds one, or holds no directory at inode 0 and only free inodes behind it |
| VfsRuns.CatIsLegal | fs/vfs.c:131-132 | in every state of a run the 8192-byte read of `vfs_cat` is in bounds |
| VfsRuns.MakeSpec | fs/vfs.c:52-72 | exactly when mkdir and touch succeed; then mkdir answers the first free inode, an empty directory with the name cut to 31 bytes, and touch 0, with an empty file there; otherwise both answer -1 and change nothing |
| VfsRuns.CatSpec | fs/vfs.c:123-141 | prints the whole file up to its first NUL and a newline unless the file ends in one, nothing for an empty file; -1 for anything but a file |
| VfsRuns.InitSpec | fs/vfs.c:40-50 | the table of the drive; if inode 0 is no directory it becomes a nameless empty one and is written back, and the other inodes stay |
| VfsRuns.ZeroedDriveSettles | fs/vfs.c:40-50 | a zeroed drive is a valid start |
| VfsRuns.StepSyncs | fs/vfs.c:40-161 | a successful mkdir or touch, a write that fits, and an init leave the drive equal to memory, however far it lagged behind; no other call touches the drive |
| VfsRuns.DriveHoldsLastSync | fs/vfs.c:40-185 | after every run, oversized writes included, the drive holds the table that was in memory right after the last such call |
| VfsRuns.RebootToLastSync | fs/vfs.c:13-50 | so a reboot after any run brings that table back, whatever memory holds |
| VfsRuns.RebootRestores | fs/vfs.c:13-50 | a reboot after any run without oversized writes gets the whole table back, whatever memory holds |
| VfsRuns.WriteMirroredIff | fs/vfs.c:143-161 | drive and memory agree after a write if and only if it stores nothing and they agreed before, or it is stored and fits, or it is oversized and the drive already holds the resulting table; if they agreed before, the last means that the file already holds those bytes |
| VfsRuns.ReadBack | fs/vfs.c:143-185 | in every state of a run, with equal siblings or without, any read after a successful write delivers the new content followed by the old tail |
| VfsRuns.WriteLeavesOthers | fs/vfs.c:143-161 | a write changes no other file |
| Paths.DepthBound | fs/vfs.c:99-108 | a parent chain visits no inode twice, so at most 32 are collected |
| Paths.PrintedPath | fs/vfs.c:110-113 | the reversed print loop writes the names from the root down |
| Paths.PrintedComponents | fs/vfs.c:110-113 | taken apart at its slashes the printed text gives the names back, if none holds a slash |
| Walks.ChangeDirSpec | fs/vfs.c:84-97 | "/" leads to the root, ".." to the directory that lists the current one, any other name to the child directory that is the first of that name; if there is none the answer is -1 and nothing changes |
| Walks.PwdThenCd | fs/vfs.c:84-114 | for every directory of every tree, going from any directory to "/" and through its names ends in it if and only if no directory on the way is called ".." or "/" or has an earlier sibling of the same name; with unique sibling names, if and only if no name is special |
| Walks.PwdLeadsBack | fs/vfs.c:84-114 | in every state a run from the root can reach, with names of any kind, going from any directory to "/" and through the names of the current directory ends in it |
| Walks.PwdTextLeadsBack | fs/vfs.c:84-114 | and so does going through the pieces of the text `vfs_pwd` prints, if no name on it holds a slash |
| Walks.SettledReady | fs/vfs.c:52-185 | in every state the run theorems speak of, the file system methods can be called: directory scans are safe, the parent chain fits the 32 slots and the names on it end within their fields |
| Walks.MkdirCdUp | fs/vfs.c:52-97 | a directory just made is entered by its name if and only if the name has at most 31 bytes and is neither ".." nor "/"; ".." leads back from it always |
| Walks.LongNameNeverFound | fs/file.c:16 | a name of 32 bytes or more is never found |
| Walks.LongNameNotReadBack | fs/vfs.c:143-185 | so after a write under such a name a read under it fails, whatever the write answered |
| Walks.LongNameTwice | fs/file.c:43-47 | creating such a name twice leaves siblings of equal names, whatever the tree held before |
| Walks.LongNameClash | fs/vfs.c:116-121 | a concrete run in which this happens |
| Walks.ShadowedPath | fs/vfs.c:52-114 | and one in which the names of a directory, none of them special, lead to its earlier twin instead |
| MkFs.PackedLayout | tools/mkfs.py:28-42 | the tool's packing decodes to the padded fields in the kernel's layout |
| MkFs.CreateDisk | tools/mkfs.py:19-22 | an image of zeros of the given size |
| MkFs.WriteInode | tools/mkfs.py:24-26 | the inode's bytes at its first sector and nothing else changed |
| MkFs.Install | tools/mkfs.py:57-73 | the image with a root directory and the cut file |
| MkFs.InodeFromImage | tools/mkfs.py:24-26 | the kernel's sector arithmetic finds inode i where the tool puts it |
| MkFs.BlankImageFree | tools/mkfs.py:19-22 | on the image `create_disk` makes no inode is in use |
| MkFs.InstalledTreeIff | tools/mkfs.py:60-73 | on any image large enough, what `vfs_init` finds after the tool ran is a tree if and only if no inode but the two overwritten ones was in use; then it is a valid start of a run |
| MkFs.ImageToRead | tools/mkfs.py:44-73 | after the tool ran on any image large enough, reading n bytes gives the first bytes of the host file for the installed name and fails for all others; no restriction on name, content or what the image held |
| ElfLoader.LoadSucceedsIff | fs/elf.c:22-46 | the header loop succeeds if and only if every program header and every loadable segment lies in the file |
| ElfLoader.ElfLoadSucceedsIff | fs/elf.c:7-47 | the loader answers 0 if and only if file, header, magic, all program headers and all loadable ranges read in full |
| ElfLoader.LastSegmentWins | fs/elf.c:31-43 | after success an address holds the byte (file byte, or zero up to the memory size) of the last segment covering it |
| ElfLoader.UntouchedKept | fs/elf.c:31-43 | and an address no segment covers is unchanged |
| ElfLoader.LoadedImage | fs/elf.c:22-46 | after success every address holds the byte of the last segment covering it, or its old byte |
| ElfLoader.ProcessImage | fs/elf.c:31-43 | with disjoint segments the memory is the process image of the Program Header section of chapter 5 of the System V ABI |
| ElfFormat.ReadsFileHeader | fs/elf.h:14-29 | the loader finds entry point and table in a header laid out field by field |
| ElfFormat.ReadsProgramHeader | fs/elf.h:39-48 | and type, offset, address and sizes in a program header laid out field by field |
| ElfFormat.ExecutableLoads | fs/elf.c:7-47 | a file with such headers anywhere, whose segments lie in it and in memory, loads: the answer is 0 and the entry point e_entry |
| ElfFormat.ExecutableMemory | fs/elf.c:22-46 | and every address holds the byte of the last segment of type 1 there: the file's from p_offset on, zero behind p_filesz up to p_memsz; other addresses are as before |
| ElfFormat.ExecutableAnswer | fs/elf.c:7-47 | the answer for any such file is 0 if and only if every segment of type 1 lies in it; the entry point is set in both cases |
| ElfFormat.NotExecutable | fs/elf.c:8-18 | no file, less than 52 bytes, or other first bytes than 0x7F "ELF": -1 and no effect |
| ElfLoader.LoadSegment | fs/elf.c:34-42 | one segment's bytes and zeros in place; a cut segment leaves its partial bytes and fails |
| ElfLoader.LoadSegments | fs/elf.c:22-46 | the loop computes the fold of the segment writes |
| ElfLoader.ElfLoad | fs/elf.c:7-47 | answer, entry point and whole memory in every case; the file system is as before |
| BootImage.InstalledProgramLoads | tools/mkfs.py:60-73 | an executable installed by the tool on any image is the file the loader reads; it loads if and only if the host file is a complete executable, and then the answer is its entry point and every address holds the byte of the last segment of the host file covering it, or its old byte |
| BootImage.InstalledExecutable | tools/mkfs.py:44-73 | so an executable the tool installs is in memory after the load as its program headers say |
| Terminal.TypeVisible | display/display.c:37-68 | in every run the cursor stays in the 80x25 screen, everything at or behind it is blank, and the window only moves down |
| Terminal.PutCodes | display/display.c:37-68 | codes from 32 on are drawn as 0x0F00 plus the code, 10 starts a row, 8 blanks the cell before the cursor except at the top left, other codes do nothing |
| Terminal.TypeLayout | display/display.c:37-68 | printable lines appear in the line-by-line 80-column layout |
| Terminal.TextShown | display/display.c:14-68 | on a cleared screen a text shows as the last 25 rows of that layout |
| Terminal.TextCodes | display/display.c:14-68 | every one of the 25x80 cells of a cleared screen shows, in attribute 0x0F, the character of the text that belongs there, or a space |
| Display.Vga.CleanDisplay | display/display.c:14-21 | 2000 cells 0x0F20 and the cursor at the top left |
| Display.Vga.MoveRows | display/display.c:25-32 | every row moves up one and a blank row comes in |
| Display.Vga.ScrollUp | display/display.c:23-35 | scrolling only moves the window one row down the terminal |
| Display.Vga.Putc | display/display.c:37-68 | screen and cursor stay the window on the unbounded terminal, for every character; a code from 32 on is in the cell the cursor was on, or one row higher after a scroll |
| Display.Vga.Print | display/display.c:70-73 | prints the characters before the NUL |
| Display.Vga.PrintNum | display/display.c:75-93 | prints the signed numeral, within its 12-character buffer |
| Display.Vga.PrintHex | display/display.c:95-106 | prints the hexadecimal numeral, within its 17-character buffer |
| Display.Vga.PrintUlong | display/display.c:108-118 | prints the decimal numeral, within its 21-character buffer |
| Numerals.UnsignedParses | display/display.c:95-118 | the printed digits read back as the number, without leading zeros |
| Numerals.SignedParses | display/display.c:75-93 | a minus sign 45 for negative numbers, then decimal digits without leading zeros, that read back as the number, the most negative one included |
| Numerals.WordDigits | display/display.c:86-91 | 32-bit numbers have at most 10 decimal and 8 hexadecimal digits |
| LineEditor.KeyAgreesIff | io/kinput.c:23-46 | a key keeps screen and buffer in agreement if and only if it is at least 32, 8, 0x15 or 0, or the buffer is full |
| LineEditor.TypedLine | io/kinput.c:44-47 | the line is what was typed, cut where the buffer has one place left |
| LineEditor.EraseUndoes | io/kinput.c:23-31 | wherever there is room, a character followed by backspace (8) or delete (127) is as if neither had been typed |
| LineEditor.ControlKeys | io/kinput.c:13-41 | 8 and 127 erase the last character if there is one, 0x15, 10 and 13 empty the line, 0 does nothing |
| LineEditor.TypingAgrees | io/kinput.c:9-48 | for all sequences of keys that are at least 32, 8, 0x15 or 0 the terminal shows the contents at the prompt followed by the line, across wraps and scrolls |
| LineEditor.Editor.Prompt | io/kinput.c:5-7 | prints "> " |
| LineEditor.Editor.Poll | io/kinput.c:9-48 | buffer, echo and answer for one key; 10 and 13 deliver the line, NUL-terminated |
| LineEditor.Editor.ReadCommand | kernel/main.c:37-43 | the keys of one command deliver the line of the push, pop and clear machine, and the screen agrees until then |

## Left out

- Messages the file system and the loader print (errors, progress) and `vfs_ls`: output only; `vfs_pwd` and `vfs_cat` return their text.
- `kprintf`: argument passing and format dispatch; the numeral printers it calls are modelled.
- `strcat`, `strcpy`, `strncmp`, `starts_with`: no modelled code calls them.
- Drive, keyboard, PCI, USB, network and timer hardware: the drive is an array of sectors, the keyboard an arbitrary character sequence.
- Paging, interrupts, processes, system calls and command dispatch.
- Power loss in the middle of a sync: there is no journal to reason about.
- Overlap of heap, kernel image and load addresses in physical memory: each is a memory of its own.
- Inodes are values in the inode array, as C structs are: no pointer to an inode outlives a call in the source.
- BlockList.Free: a pointer that is neither NULL nor live makes the source write outside its headers; `Kfree` requires a live pointer.
- Descriptors.RunKeepsPositions: covers seeks to at most the file size and lengths that do not wrap; `ReadStaysInside` and `WriteStaysInside` show that anything else leaves the data area.
- VfsRuns.RunKept: starts with no descriptor open, as in the kernel, where only these calls open files; open descriptors across calls are covered by `RunKeepsPositions`.
- LineEditor.TypingAgrees: line buffers of up to 1921 bytes (the kernel's has 128), so that a line never scrolls off its own screen.
- Vfs.FileSystem.VfsWriteFile: contents of 2^31 bytes or more, which have no length in the `int` of `strlen`, are excluded here and in the lemmas about writes.
- MkFs.Install: image files too short for two inodes, which the tool would extend, are not modelled; from `InodeFromImage` on an image has room for all 32 inodes, as the kernel reads that much of the drive.
- ElfLoader.ElfLoad: offsets beyond the end of the file, segments outside memory and memories beyond 32-bit addresses are excluded by `Loadable`; the source would copy from outside the inode.
