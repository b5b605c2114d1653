/** `tools/mkfs.py`: building a disk image on the host, and what the kernel makes of it. */
module MkFs {
  import opened Machine
  import opened CString
  import opened InodeLayout
  import opened SectorStore
  import opened FileTree
  import opened Descriptors
  import opened VfsModel
  import opened Vfs
  import opened VfsRuns

  const INODE_SECTORS: int := 17
  const INODE_STRIDE: int := 8704  // INODE_SECTORS * SECTOR_SIZE

  /** `bytes[:limit].ljust(width, b'\x00')` */
  function Fit(bytes: seq<Byte>, limit: nat, width: nat): (r: seq<Byte>)
    requires limit <= width
    ensures |r| == width
  {
    var cut := bytes[..Min(|bytes|, limit)];
    cut + Zeros(width - |cut|)
  }

  /** `struct.pack("<32sIIII16I8192s", ...)` of the padded fields. */
  function PackInode(name: seq<Byte>, itype: Word, size: Word, parent: Word, numEntries: Word,
                     dirEntries: seq<Word>, data: seq<Byte>): (b: seq<Byte>)
    requires |dirEntries| <= MAX_DIR_ENTRIES
    ensures |b| == INODE_SIZE
  {
    Fit(name, MAX_FILENAME - 1, MAX_FILENAME) + Le32(itype) + Le32(size) + Le32(parent) + Le32(numEntries)
    + Le32Seq(dirEntries + ZeroWords(MAX_DIR_ENTRIES - |dirEntries|)) + Fit(data, MAX_FILE_SIZE, MAX_FILE_SIZE)
  }

  /** The host tool packs the byte layout of the kernel's struct. */
  lemma PackedLayout(name: seq<Byte>, itype: Word, size: Word, parent: Word, numEntries: Word,
                     dirEntries: seq<Word>, data: seq<Byte>)
    requires |dirEntries| <= MAX_DIR_ENTRIES
    ensures var p := PackInode(name, itype, size, parent, numEntries, dirEntries, data);
            Decode(p) == Record(Fit(name, MAX_FILENAME - 1, MAX_FILENAME), itype, size, parent, numEntries,
                                dirEntries + ZeroWords(MAX_DIR_ENTRIES - |dirEntries|),
                                Fit(data, MAX_FILE_SIZE, MAX_FILE_SIZE))
  {
    var r: Inode := Record(Fit(name, MAX_FILENAME - 1, MAX_FILENAME), itype, size, parent, numEntries,
                           dirEntries + ZeroWords(MAX_DIR_ENTRIES - |dirEntries|),
                           Fit(data, MAX_FILE_SIZE, MAX_FILE_SIZE));
    assert PackInode(name, itype, size, parent, numEntries, dirEntries, data) == Encode(r);
    DecodeEncode(r);
  }

  function RootBytes(): seq<Byte> {
    PackInode([], INODE_DIR, 0, 0, 1, [1], [])
  }

  function FileBytes(name: seq<Byte>, content: seq<Byte>): seq<Byte> {
    var c := Clip(content, MAX_FILE_SIZE);
    PackInode(name, INODE_FILE, |c|, 0, 0, [], c)
  }

  // ----- the tool

  method CreateDisk(sizeMb: nat) returns (image: array<Byte>)
    ensures fresh(image) && image[..] == Zeros(sizeMb * 1024 * 1024)
  {
    image := new Byte[sizeMb * 1024 * 1024](_ => 0);
  }

  /** Seek to the inode's first sector and write. */
  method WriteInode(image: array<Byte>, index: nat, inodeData: seq<Byte>)
    requires index * INODE_STRIDE + |inodeData| <= image.Length
    modifies image
    ensures image[..] == Splice(old(image[..]), index * INODE_STRIDE, inodeData)
  {
    MemCpy(image, index * INODE_STRIDE, inodeData, 0, |inodeData|);
    assert inodeData[0..|inodeData|] == inodeData;
  }

  /** The image with a root directory at inode 0 and one file at inode 1. */
  function Installed(image: seq<Byte>, name: seq<Byte>, content: seq<Byte>): seq<Byte>
    requires |image| >= 2 * INODE_STRIDE
  {
    Splice(Splice(image, 0, RootBytes()), INODE_STRIDE, FileBytes(name, content))
  }

  method Install(image: array<Byte>, vfsPath: seq<Byte>, hostFile: seq<Byte>)
    requires image.Length >= 2 * INODE_STRIDE
    modifies image
    ensures image[..] == Installed(old(image[..]), vfsPath, hostFile)
  {
    var content := hostFile;
    if |content| > MAX_FILE_SIZE { content := content[..MAX_FILE_SIZE]; }
    assert content == Clip(hostFile, MAX_FILE_SIZE);
    WriteInode(image, 0, PackInode([], INODE_DIR, 0, 0, 1, [1], []));
    WriteInode(image, 1, PackInode(vfsPath, INODE_FILE, |content|, 0, 0, [], content));
  }

  // ----- the image as a drive

  function Sectors(image: seq<Byte>): seq<Sector> {
    seq(|image| / SECTOR_SIZE, l requires 0 <= l < |image| / SECTOR_SIZE => image[l * SECTOR_SIZE..(l + 1) * SECTOR_SIZE])
  }

  lemma ImagePiece(image: seq<Byte>, i: nat, s: nat)
    requires |image| >= MAX_INODES * INODE_STRIDE && i < MAX_INODES && s < INODE_SECTORS
    ensures TableDrive(Sectors(image)) && SectorCount(INODE_SIZE, SECTOR_SIZE) == INODE_SECTORS
    ensures CopySize(s, INODE_SIZE, SECTOR_SIZE) == if s == INODE_SECTORS - 1 then 112 else SECTOR_SIZE
    ensures var (l, c, at) := (Lba(i, s, INODE_SIZE, SECTOR_SIZE), CopySize(s, INODE_SIZE, SECTOR_SIZE),
                               i * INODE_STRIDE + s * SECTOR_SIZE);
            l < |Sectors(image)| && Sectors(image)[l][..c] == image[at..at + c]
  {
    var l, at := Lba(i, s, INODE_SIZE, SECTOR_SIZE), i * INODE_STRIDE + s * SECTOR_SIZE;
    assert Sectors(image)[l] == image[at..at + SECTOR_SIZE];
  }

  lemma GatherStep(image: seq<Byte>, i: nat, s: nat)
    requires |image| >= MAX_INODES * INODE_STRIDE && i < MAX_INODES && s < INODE_SECTORS
    ensures TableDrive(Sectors(image)) && SectorCount(INODE_SIZE, SECTOR_SIZE) == INODE_SECTORS
    ensures var at := i * INODE_STRIDE + s * SECTOR_SIZE;
            Gather(Sectors(image), i, s + 1, INODE_SIZE, SECTOR_SIZE) ==
              Gather(Sectors(image), i, s, INODE_SIZE, SECTOR_SIZE)
              + image[at..at + if s == INODE_SECTORS - 1 then 112 else SECTOR_SIZE]
  {
    ImagePiece(image, i, s);
  }

  lemma JoinSlices(b: seq<Byte>, lo: nat, mid: nat, hi: nat)
    requires lo <= mid <= hi <= |b|
    ensures b[lo..mid] + b[mid..hi] == b[lo..hi]
  {
  }

  lemma {:induction false} GatherImage(image: seq<Byte>, i: nat, s: nat)
    requires |image| >= MAX_INODES * INODE_STRIDE && i < MAX_INODES && s <= INODE_SECTORS
    ensures TableDrive(Sectors(image)) && SectorCount(INODE_SIZE, SECTOR_SIZE) == INODE_SECTORS
    ensures var n := if s == INODE_SECTORS then INODE_SIZE else s * SECTOR_SIZE;
            Gather(Sectors(image), i, s, INODE_SIZE, SECTOR_SIZE) == image[i * INODE_STRIDE..i * INODE_STRIDE + n]
  {
    if s == 0 {
      ImagePiece(image, i, 0);
    } else {
      var base := i * INODE_STRIDE;
      var at := base + (s - 1) * SECTOR_SIZE;
      GatherImage(image, i, s - 1);
      GatherStep(image, i, s - 1);
      JoinSlices(image, base, at, at + if s == INODE_SECTORS then 112 else SECTOR_SIZE);
    }
  }

  /** The kernel reads inode `i` from the bytes at the tool's offset for it. */
  lemma InodeFromImage(image: seq<Byte>, i: nat)
    requires |image| >= MAX_INODES * INODE_STRIDE && i < MAX_INODES
    ensures TableDrive(Sectors(image))
    ensures DiskTable(Sectors(image))[i] == Decode(image[i * INODE_STRIDE..i * INODE_STRIDE + INODE_SIZE])
  {
    GatherImage(image, i, INODE_SECTORS);
  }

  // ----- what the kernel finds

  function RootInode(): Inode {
    Zero().(itype := INODE_DIR, numEntries := 1, entries := ZeroWords(MAX_DIR_ENTRIES)[0 := 1])
  }

  function FileInode(name: seq<Byte>, content: seq<Byte>): Inode {
    var c := Clip(content, MAX_FILE_SIZE);
    Record(Fit(name, MAX_FILENAME - 1, MAX_FILENAME), INODE_FILE, |c|, 0, 0, ZeroWords(MAX_DIR_ENTRIES),
           Fit(c, MAX_FILE_SIZE, MAX_FILE_SIZE))
  }

  /** The table `t0` after the tool overwrote its first two inodes. */
  function InstalledTable(t0: Table, name: seq<Byte>, content: seq<Byte>): Table {
    t0[0 := RootInode()][1 := FileInode(name, content)]
  }

  lemma RootBytesDecode()
    ensures Decode(RootBytes()) == RootInode()
  {
    PackedLayout([], INODE_DIR, 0, 0, 1, [1], []);
    assert Fit([], MAX_FILENAME - 1, MAX_FILENAME) == Zeros(MAX_FILENAME);
    assert Fit([], MAX_FILE_SIZE, MAX_FILE_SIZE) == Zeros(MAX_FILE_SIZE);
    assert [1] + ZeroWords(MAX_DIR_ENTRIES - 1) == ZeroWords(MAX_DIR_ENTRIES)[0 := 1];
  }

  lemma FileBytesDecode(name: seq<Byte>, content: seq<Byte>)
    ensures Decode(FileBytes(name, content)) == FileInode(name, content)
  {
    var c := Clip(content, MAX_FILE_SIZE);
    PackedLayout(name, INODE_FILE, |c|, 0, 0, [], c);
    assert [] + ZeroWords(MAX_DIR_ENTRIES) == ZeroWords(MAX_DIR_ENTRIES);
  }

  lemma SpliceSlice(memory: seq<Byte>, off: nat, b: seq<Byte>, lo: nat, hi: nat)
    requires off + |b| <= |memory| && lo <= hi <= |memory|
    ensures lo == off && hi == off + |b| ==> Splice(memory, off, b)[lo..hi] == b
    ensures hi <= off || off + |b| <= lo ==> Splice(memory, off, b)[lo..hi] == memory[lo..hi]
  {
    var m := Splice(memory, off, b);
    assert forall k :: 0 <= k < |b| ==> m[off + k] == b[k];
    assert forall k :: 0 <= k < |memory| && (k < off || off + |b| <= k) ==> m[k] == memory[k];
    if lo == off && hi == off + |b| {
      assert m[lo..hi] == b;
    } else if hi <= off || off + |b| <= lo {
      assert m[lo..hi] == memory[lo..hi];
    }
  }

  /** The bytes of inode `i`. */
  function Slot(image: seq<Byte>, i: nat): seq<Byte>
    requires |image| >= MAX_INODES * INODE_STRIDE && i < MAX_INODES
  {
    image[i * INODE_STRIDE..i * INODE_STRIDE + INODE_SIZE]
  }

  lemma InstalledSlot(image: seq<Byte>, name: seq<Byte>, content: seq<Byte>, i: nat)
    requires |image| >= MAX_INODES * INODE_STRIDE && i < MAX_INODES
    ensures |Installed(image, name, content)| == |image|
    ensures Slot(Installed(image, name, content), i) ==
      if i == 0 then RootBytes() else if i == 1 then FileBytes(name, content) else Slot(image, i)
  {
    var (lo, hi) := (i * INODE_STRIDE, i * INODE_STRIDE + INODE_SIZE);
    var rooted := Splice(image, 0, RootBytes());
    SpliceSlice(image, 0, RootBytes(), lo, hi);
    SpliceSlice(rooted, INODE_STRIDE, FileBytes(name, content), lo, hi);
  }

  lemma InstalledInode(image: seq<Byte>, name: seq<Byte>, content: seq<Byte>, i: nat)
    requires |image| >= MAX_INODES * INODE_STRIDE && i < MAX_INODES
    ensures |Installed(image, name, content)| == |image|
    ensures TableDrive(Sectors(image)) && TableDrive(Sectors(Installed(image, name, content)))
    ensures DiskTable(Sectors(Installed(image, name, content)))[i]
            == InstalledTable(DiskTable(Sectors(image)), name, content)[i]
  {
    InstalledSlot(image, name, content, i);
    InodeFromImage(image, i);
    InodeFromImage(Installed(image, name, content), i);
    if i == 0 {
      RootBytesDecode();
    } else if i == 1 {
      FileBytesDecode(name, content);
    }
  }

  /** On any image the tool replaces the first two inodes the kernel reads, and no other. */
  lemma InstalledTableRead(image: seq<Byte>, name: seq<Byte>, content: seq<Byte>)
    requires |image| >= MAX_INODES * INODE_STRIDE
    ensures |Installed(image, name, content)| == |image|
    ensures TableDrive(Sectors(image)) && TableDrive(Sectors(Installed(image, name, content)))
    ensures DiskTable(Sectors(Installed(image, name, content)))
            == InstalledTable(DiskTable(Sectors(image)), name, content)
  {
    InstalledInode(image, name, content, 0);
    var t, t' := DiskTable(Sectors(image)), DiskTable(Sectors(Installed(image, name, content)));
    forall i | 0 <= i < MAX_INODES ensures t'[i] == InstalledTable(t, name, content)[i] {
      InstalledInode(image, name, content, i);
    }
    assert t' == InstalledTable(t, name, content);
  }

  /** No inode but the first two is in use. */
  ghost predicate RestFree(t: Table) {
    forall i :: 2 <= i < MAX_INODES ==> !Used(t, i)
  }

  /** The image `create_disk` makes has no inode in use. */
  lemma BlankImageFree(size: nat)
    requires size >= MAX_INODES * INODE_STRIDE
    ensures TableDrive(Sectors(Zeros(size))) && RestFree(DiskTable(Sectors(Zeros(size))))
  {
    InodeFromImage(Zeros(size), 0);
    forall i | 2 <= i < MAX_INODES ensures !Used(DiskTable(Sectors(Zeros(size))), i) {
      InodeFromImage(Zeros(size), i);
      assert Slot(Zeros(size), i) == Zeros(INODE_SIZE);
      DecodeZeros();
    }
  }

  lemma InstalledName(t0: Table, name: seq<Byte>, content: seq<Byte>)
    ensures NameOf(InstalledTable(t0, name, content)[1]) == UpToNul(Stored(name))
  {
    NulTail(Stored(name), MAX_FILENAME - |Stored(name)|);
  }

  /** With all other inodes free the tool leaves a tree of a root and one file. */
  lemma InstalledGood(t0: Table, name: seq<Byte>, content: seq<Byte>)
    requires RestFree(t0)
    ensures GoodTable(InstalledTable(t0, name, content)) && UniqueNames(InstalledTable(t0, name, content))
  {
    var blank, t := t0[1 := Zero()], InstalledTable(t0, name, content);
    var root := FreshRoot(blank);
    assert AllFree(blank) by {
      forall i | 0 < i < MAX_INODES ensures !Used(blank, i) { assert i == 1 || !Used(t0, i); }
    }
    FreshRootTree(blank);
    assert t[1].name[MAX_FILENAME - 1] == 0;
    assert t[0] == Link(root[0], 1);
    LinkedExtends(root, t, 0, 1);
    InstalledKept(root, t);
  }

  lemma InstalledKept(root: Table, t: Table)
    requires GoodTable(root) && UniqueNames(root) && root[0].numEntries == 0 && Extends(root, t, 0, 1)
    ensures GoodTable(t) && UniqueNames(t)
  {
    ExtendedTree(root, t, 0, 1);
    TreeEntries(root);
    ExtendedUnique(root, t, 0, 1);
  }

  /** A used inode below the root is an entry of its parent. */
  ghost predicate HasParent(t: Table, i: nat) {
    Used(t, i) && i != 0 ==> ListedBy(t, t[i].parent, i)
  }

  /** A used inode whose parents lead to a root that lists inode 1 only is inode 1, if that is a file. */
  lemma {:induction false} OnlyFile(t: Table, i: nat, n: nat)
    requires (forall j :: HasParent(t, j)) && t[0] == RootInode() && IsFile(t, 1)
    requires Used(t, i) && i != 0 && Rooted(t, i, n)
    ensures i == 1
    decreases n
  {
    var p := t[i].parent;
    assert HasParent(t, i);
    var k :| Lists(t, p, k) && Child(t, p, k) == i;
    if p != 0 {
      OnlyFile(t, p, n - 1);
    }
  }

  lemma InstalledTreeOnlyIf(t0: Table, name: seq<Byte>, content: seq<Byte>)
    requires IsTree(InstalledTable(t0, name, content))
    ensures RestFree(t0)
  {
    var t := InstalledTable(t0, name, content);
    forall i ensures HasParent(t, i) {
    }
    forall i | 2 <= i < MAX_INODES ensures !Used(t0, i) {
      if Used(t, i) {
        assert Reaches(t, i);
        var n: nat :| Rooted(t, i, n);
        OnlyFile(t, i, n);
      }
    }
  }

  /** The tool opens an existing image and overwrites two inodes. What `vfs_init` then finds is a tree exactly
      when no other inode of the image was in use; and then it is a valid start of a run. */
  lemma InstalledTreeIff(image: seq<Byte>, name: seq<Byte>, content: seq<Byte>, memory: Session, cwd: nat)
    requires |image| >= MAX_INODES * INODE_STRIDE && NoneOpen(memory.fds)
    ensures TableDrive(Sectors(image)) && TableDrive(Sectors(Installed(image, name, content)))
    ensures var fs := Init(Fs(memory, cwd, DiskTable(Sectors(Installed(image, name, content)))));
            && (IsTree(fs.s.t) <==> RestFree(DiskTable(Sectors(image))))
            && (RestFree(DiskTable(Sectors(image))) ==> Settled(fs) && Mirrored(fs) && Unique(fs))
  {
    InstalledTableRead(image, name, content);
    var t0 := DiskTable(Sectors(image));
    if RestFree(t0) {
      InstalledGood(t0, name, content);
    } else if IsTree(InstalledTable(t0, name, content)) {
      InstalledTreeOnlyIf(t0, name, content);
    }
  }

  lemma {:induction false} NulTail(n: seq<Byte>, k: nat)
    requires k > 0
    ensures UpToNul(n + Zeros(k)) == UpToNul(n)
  {
    if n == [] {
      assert n + Zeros(k) == Zeros(k);
    } else if n[0] != 0 {
      assert (n + Zeros(k))[1..] == n[1..] + Zeros(k);
      NulTail(n[1..], k);
    }
  }

  /** From the host to the kernel: after the tool ran on any image, reading `n` bytes of a name gives the first
      bytes of the host file, cut to 8192, if the name is the installed one (its first 31 bytes, up to a
      NUL), and fails for any other name, whatever the image held before. */
  lemma ImageToRead(image: seq<Byte>, name: seq<Byte>, content: seq<Byte>, memory: Session, cwd: nat, query: seq<Byte>, n: Word)
    requires |image| >= MAX_INODES * INODE_STRIDE && FreeFd(memory.fds, 0) >= 0
    ensures TableDrive(Sectors(Installed(image, name, content)))
    ensures var fs := Init(Fs(memory, cwd, DiskTable(Sectors(Installed(image, name, content)))));
            var host := Clip(content, MAX_FILE_SIZE);
            && CanReadAt(fs, query, n, 0)
            && var (_, count, bytes) := ReadAt(fs, query, n, 0);
            if query == UpToNul(Stored(name)) then bytes == Clip(host, n) && count == |bytes| else count == -1
  {
    InstalledTableRead(image, name, content);
    InstalledRead(DiskTable(Sectors(image)), name, content, memory, cwd, query, n);
  }

  lemma InstalledFind(t0: Table, name: seq<Byte>, content: seq<Byte>, query: seq<Byte>)
    ensures Find(InstalledTable(t0, name, content), 0, query) == if query == UpToNul(Stored(name)) then 1 else -1
  {
    var t := InstalledTable(t0, name, content);
    InstalledName(t0, name, content);
    FindFromSound(t, 0, query, 0);
    assert Lists(t, 0, 0) && Child(t, 0, 0) == 1;
  }

  lemma InstalledRead(t0: Table, name: seq<Byte>, content: seq<Byte>, memory: Session, cwd: nat, query: seq<Byte>, n: Word)
    requires FreeFd(memory.fds, 0) >= 0
    ensures var fs := Init(Fs(memory, cwd, InstalledTable(t0, name, content)));
            var host := Clip(content, MAX_FILE_SIZE);
            && CanReadAt(fs, query, n, 0)
            && var (_, count, bytes) := ReadAt(fs, query, n, 0);
            if query == UpToNul(Stored(name)) then bytes == Clip(host, n) && count == |bytes| else count == -1
  {
    var t := InstalledTable(t0, name, content);
    InstalledFind(t0, name, content, query);
    InstalledContent(t0, name, content);
    ReadAtDelivers(Init(Fs(memory, cwd, t)), query, n, 0);
  }

  lemma InstalledContent(t0: Table, name: seq<Byte>, content: seq<Byte>)
    ensures var i := InstalledTable(t0, name, content)[1];
            i.size == |Clip(content, MAX_FILE_SIZE)| && Content(i) == Clip(content, MAX_FILE_SIZE)
  {
  }
}
