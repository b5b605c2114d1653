/** `fs/vfs.c`: the file system calls, in place on the inode array, the drive and the descriptor table. */
module Vfs {
  import opened Machine
  import opened CString
  import opened InodeLayout
  import opened FileTree
  import opened Descriptors
  import opened Files
  import opened Paths
  import opened SectorStore
  import opened VfsModel

  const SECTOR_SIZE: int := 512

  /** A drive with room for the inode table. */
  predicate TableDrive(disk: seq<Sector>) {
    Drive(disk, MAX_INODES, INODE_SIZE, SECTOR_SIZE)
  }

  /** The inode table a drive holds. */
  function DiskTable(disk: seq<Sector>): Table
    requires TableDrive(disk)
  {
    seq(MAX_INODES, i requires 0 <= i < MAX_INODES => Decode(Assemble(disk, i, INODE_SIZE, SECTOR_SIZE)))
  }

  lemma HeldTable(disk: seq<Sector>, t: Table)
    requires TableDrive(disk) && forall i :: 0 <= i < MAX_INODES ==> Holds(disk, i, Encode(t[i]), SECTOR_SIZE)
    ensures DiskTable(disk) == t
  {
    forall i | 0 <= i < MAX_INODES ensures DiskTable(disk)[i] == t[i] {
      AssembleHolds(disk, i, Encode(t[i]), SECTOR_SIZE);
      DecodeEncode(t[i]);
    }
  }

  /** `strcmp` with a string literal. */
  method SameName(path: seq<Byte>, literal: seq<Byte>) returns (same: bool)
    requires 0 in path && NulFree(literal)
    ensures same <==> UpToNul(path) == literal
  {
    var diff := StrCmp(path, literal + [0]);
    UpToNulOf(literal, [0]);
    return diff == 0;
  }

  class FileSystem {
    var currentDir: Word
    const inodes: array<Inode>
    const files: FileTable
    const disk: array<Sector>

    ghost predicate Valid()
      reads this, inodes, files, disk
    {
      && inodes.Length == MAX_INODES
      && files.Valid()
      && TableDrive(disk[..])
      && inodes as object != disk && inodes as object != files.fds && disk as object != files.fds
    }

    /** The file system as one value. */
    ghost function State(): Fs
      requires Valid()
      reads this, inodes, files, files.fds, disk
    {
      Fs(files.State(inodes), currentDir, DiskTable(disk[..]))
    }

    /** The current directory is a directory that can be searched. */
    ghost predicate Ready()
      reads this, inodes, files, files.fds, disk
    {
      Valid() && IsDir(inodes[..], currentDir) && Searchable(inodes[..], currentDir)
    }

    /** The kernel's static data: an inode array of zeros and no descriptor in use. */
    constructor (drive: array<Sector>)
      requires TableDrive(drive[..])
      ensures Valid() && disk == drive && NoneOpen(State().s.fds)
    {
      currentDir := 0;
      inodes := new Inode[MAX_INODES](_ => Zero());
      files := new FileTable();
      disk := drive;
    }

    /** The sectors of inode `i`, read into `raw`. */
    method LoadInode(i: nat, raw: array<Byte>)
      requires TableDrive(disk[..]) && i < MAX_INODES && raw.Length == INODE_SIZE && disk as object != raw
      modifies raw
      ensures Decode(raw[..]) == DiskTable(disk[..])[i]
    {
      DriveFor(disk[..], MAX_INODES, i + 1, INODE_SIZE, SECTOR_SIZE);
      LoadRecord(disk, i, raw, SECTOR_SIZE);
    }

    method Load()
      requires Valid()
      modifies inodes
      ensures Valid() && inodes[..] == DiskTable(disk[..])
    {
      ghost var sectors := disk[..];
      var raw := new Byte[INODE_SIZE](_ => 0);
      for i := 0 to MAX_INODES
        invariant disk[..] == sectors
        invariant inodes[..i] == DiskTable(sectors)[..i]
      {
        LoadInode(i, raw);
        inodes[i] := Decode(raw[..]);
      }
    }

    method Sync()
      requires Valid()
      modifies disk
      ensures Valid() && State() == VfsModel.Sync(old(State()))
    {
      for i := 0 to MAX_INODES
        invariant TableDrive(disk[..])
        invariant forall j :: 0 <= j < i ==> Holds(disk[..], j, Encode(inodes[j]), SECTOR_SIZE)
      {
        ghost var before := disk[..];
        DriveFor(before, MAX_INODES, i + 1, INODE_SIZE, SECTOR_SIZE);
        SyncRecord(disk, i, Encode(inodes[i]), SECTOR_SIZE);
        forall j | 0 <= j < i ensures Holds(disk[..], j, Encode(inodes[j]), SECTOR_SIZE) {
          HoldsKept(before, disk[..], j, i, Encode(inodes[j]), SECTOR_SIZE);
        }
      }
      HeldTable(disk[..], inodes[..]);
    }

    method VfsInit()
      requires Valid()
      modifies this, inodes, disk
      ensures Valid() && State() == Init(old(State()))
    {
      Load();
      if inodes[0].itype != INODE_DIR {
        inodes[0] := Zero();
        inodes[0] := inodes[0].(itype := INODE_DIR);
        Sync();
      }
      currentDir := 0;
    }

    method VfsMkdir(name: seq<Byte>) returns (r: int)
      requires Ready() && 0 in name
      modifies inodes, disk
      ensures Valid() && (State(), r) == Mkdir(old(State()), UpToNul(name))
    {
      var idx := FindFreeInode(inodes);
      if idx < 0 { return -1; }
      if inodes[currentDir].numEntries >= MAX_DIR_ENTRIES { return -1; }
      var found := FindInodeInDir(inodes, currentDir, name);
      if found >= 0 { return -1; }
      FindFromSound(inodes[..], currentDir, UpToNul(name), 0);
      FreeFromIsFirst(inodes[..], 0);
      inodes[idx] := FreshInode(name, INODE_DIR, currentDir);
      inodes[currentDir] := Link(inodes[currentDir], idx);
      assert inodes[..] == Create(old(inodes[..]), currentDir, UpToNul(name), INODE_DIR);
      Sync();
      return idx;
    }

    method VfsTouch(name: seq<Byte>) returns (r: int)
      requires Ready() && 0 in name
      modifies inodes, disk
      ensures Valid() && (State(), r) == Touch(old(State()), UpToNul(name))
    {
      var idx := FileCreate(name, currentDir, inodes);
      if idx < 0 { return -1; }
      Sync();
      return 0;
    }

    method VfsCd(path: seq<Byte>) returns (r: int)
      requires Ready() && 0 in path
      modifies this
      ensures Valid() && (State(), r) == ChangeDir(old(State()), UpToNul(path))
    {
      var up := SameName(path, DOT_DOT);
      if up {
        if currentDir != 0 { currentDir := inodes[currentDir].parent; }
        return 0;
      }
      var root := SameName(path, SLASH);
      if root {
        currentDir := 0;
        return 0;
      }
      var idx := FindInodeInDir(inodes, currentDir, path);
      FindFromSound(inodes[..], currentDir, UpToNul(path), 0);
      if idx < 0 { return -1; }
      if inodes[idx].itype != INODE_DIR { return -1; }
      currentDir := idx;
      return 0;
    }

    /** The first loop of `vfs_pwd`: the inodes up to the root; they fit the 32 slots. */
    method CollectPath(ghost n: nat) returns (path: array<nat>, depth: nat)
      requires Ready() && Rooted(inodes[..], currentDir, n)
      ensures depth == n + 1 <= path.Length && path[..depth] == Chain(inodes[..], currentDir, n)
    {
      ghost var t, chain := inodes[..], Chain(inodes[..], currentDir, n);
      DepthBound(t, currentDir, n);
      ChainInRange(t, currentDir, n);
      var idx := currentDir;
      path := new nat[MAX_INODES](_ => 0);
      depth := 0;
      while true
        invariant depth <= n && idx == chain[depth] && path[..depth] == chain[..depth]
        invariant Rooted(t, idx, n - depth)
        decreases n - depth
      {
        path[depth] := idx;
        depth := depth + 1;
        if idx == 0 { break; }
        ChainStep(t, currentDir, n, depth - 1);
        idx := inodes[idx].parent;
      }
      assert path[..depth] == chain;
    }

    /** Prints the path of the current directory. */
    method VfsPwd(ghost n: nat) returns (printed: seq<Byte>)
      requires Ready() && Rooted(inodes[..], currentDir, n) && NamesEnd(inodes[..], currentDir, n)
      ensures printed == [47] + NameOf(inodes[0]) + Slashed(Names(inodes[..], currentDir, n))
    {
      ghost var chain := Chain(inodes[..], currentDir, n);
      var path, depth := CollectPath(n);
      forall k | 0 <= k < depth ensures path[k] < MAX_INODES && 0 in inodes[path[k]].name {
        assert path[..depth][k] == chain[k];
      }
      printed := PrintPath(path, depth);
      PrintedPath(inodes[..], currentDir, n);
    }

    /** The print loop of `vfs_pwd`: the collected inodes from the last to the first. */
    method PrintPath(path: array<nat>, depth: nat) returns (printed: seq<Byte>)
      requires inodes.Length == MAX_INODES && depth <= path.Length
      requires forall k :: 0 <= k < depth ==> path[k] < MAX_INODES && 0 in inodes[path[k]].name
      ensures printed == Printed(inodes[..], path[..depth])
    {
      ghost var chain := path[..depth];
      printed := [];
      var i := depth - 1;
      while i >= 0
        invariant -1 <= i < depth
        invariant printed == Printed(inodes[..], chain[i + 1..])
      {
        assert chain[i..][1..] == chain[i + 1..] && chain[i..][0] == path[i];
        printed := printed + SLASH;
        var name := inodes[path[i]].name;
        if name[0] != 0 { printed := printed + UpToNul(name); }
        i := i - 1;
      }
      assert chain[0..] == chain;
    }

    /** The steps `vfs_cat`, `vfs_read` and `vfs_read_at` begin with: look the name up, refuse a
        directory, open the file. */
    method OpenByName(name: seq<Byte>) returns (fd: int)
      requires Ready() && 0 in name
      modifies files.fds
      ensures Valid()
      ensures var (s, i) := (old(files.State(inodes)), Find(inodes[..], currentDir, UpToNul(name)));
              if IsFile(inodes[..], i) then (files.State(inodes), fd) == OpenFile(s, i)
              else files.State(inodes) == s && fd == -1
      ensures fd >= 0 ==> fd < MAX_OPEN_FILES && files.fds[fd] == Fd(true, Find(inodes[..], currentDir, UpToNul(name)), 0)
    {
      FindFromSound(inodes[..], currentDir, UpToNul(name), 0);
      var idx := FindInodeInDir(inodes, currentDir, name);
      if idx < 0 { return -1; }
      if inodes[idx].itype == INODE_DIR { return -1; }
      fd := files.FileOpen(idx, inodes);
    }

    /** `kprint` of the first `n` bytes, NUL-terminated, and the closing newline. */
    method PrintText(buf: array<Byte>, n: nat) returns (printed: seq<Byte>)
      requires 0 < n < buf.Length
      modifies buf
      ensures printed == CatText(old(buf[..n]))
    {
      ghost var bytes := buf[..n];
      buf[n] := 0;
      assert bytes + [0] == buf[..n + 1];
      UpToNulTerminated(bytes, buf[..]);
      printed := UpToNul(buf[..]);
      if buf[n - 1] != NEWLINE { printed := printed + [NEWLINE]; }
    }

    /** The text sent to the display is the out-parameter `printed`. */
    method VfsCat(name: seq<Byte>) returns (r: int, printed: seq<Byte>)
      requires Ready() && 0 in name && CanReadAt(State(), UpToNul(name), MAX_FILE_SIZE, 0)
      modifies files.fds
      ensures Valid() && (State(), r, printed) == Cat(old(State()), UpToNul(name))
    {
      var fd := OpenByName(name);
      if fd < 0 { return -1, []; }
      SeekToStart(files.State(inodes), fd);
      var buf := new Byte[MAX_FILE_SIZE + 1](_ => 0);
      ReadCountBound(files.State(inodes), fd, MAX_FILE_SIZE);
      ghost var bytes := Read(files.State(inodes), fd, MAX_FILE_SIZE).2;
      var n := files.FileRead(fd, buf, 0, MAX_FILE_SIZE, inodes);
      assert n == |bytes| && buf[..n] == bytes;
      printed := [];
      if n > 0 {
        printed := PrintText(buf, n);
      }
      files.FileClose(fd, inodes);
      return 0, printed;
    }

    /** The file a write goes to: the named inode, or a new file. */
    method FindOrCreate(name: seq<Byte>) returns (idx: int)
      requires Ready() && 0 in name
      modifies inodes
      ensures Valid() && -1 <= idx < MAX_INODES
      ensures (inodes[..], idx) == WriteTarget(old(inodes[..]), currentDir, UpToNul(name))
    {
      FindFromSound(inodes[..], currentDir, UpToNul(name), 0);
      FreeFromIsFirst(inodes[..], 0);
      idx := FindInodeInDir(inodes, currentDir, name);
      if idx < 0 {
        idx := FileCreate(name, currentDir, inodes);
      }
    }

    method VfsWriteFile(name: seq<Byte>, content: seq<Byte>) returns (r: int)
      requires Ready() && 0 in name && 0 in content && |UpToNul(content)| < INT_LIMIT
      modifies inodes, files.fds, disk
      ensures Valid() && (State(), r) == WriteFile(old(State()), UpToNul(name), UpToNul(content))
    {
      var idx := FindOrCreate(name);
      if idx < 0 { return -1; }
      var fd := files.FileOpen(idx, inodes);
      if fd < 0 { return -1; }
      var len := StrLen(content);
      UpToNulIsPrefix(content);
      assert content[..len] == UpToNul(content);
      var written := files.FileWrite(fd, content[..len], inodes);
      files.FileClose(fd, inodes);
      if written < len { return -1; }
      Sync();
      return 0;
    }

    method VfsRead(name: seq<Byte>, buffer: array<Byte>, off: nat, size: Word) returns (n: int)
      requires Ready() && 0 in name && CanReadAt(State(), UpToNul(name), size, 0)
      requires buffer as object != inodes && buffer as object != disk && buffer as object != files.fds
      requires off + |ReadAt(State(), UpToNul(name), size, 0).2| <= buffer.Length
      modifies files.fds, buffer
      ensures Valid()
      ensures var (s, count, bytes) := ReadAt(old(State()), UpToNul(name), size, 0);
              State() == s && n == count && buffer[..] == Splice(old(buffer[..]), off, bytes)
    {
      var fd := OpenByName(name);
      if fd < 0 { return -1; }
      SeekToStart(files.State(inodes), fd);
      n := files.FileRead(fd, buffer, off, size, inodes);
      files.FileClose(fd, inodes);
    }

    method VfsReadAt(name: seq<Byte>, buffer: array<Byte>, off: nat, size: Word, offset: Word) returns (n: int)
      requires Ready() && 0 in name && CanReadAt(State(), UpToNul(name), size, offset)
      requires buffer as object != inodes && buffer as object != disk && buffer as object != files.fds
      requires off + |ReadAt(State(), UpToNul(name), size, offset).2| <= buffer.Length
      modifies files.fds, buffer
      ensures Valid()
      ensures var (s, count, bytes) := ReadAt(old(State()), UpToNul(name), size, offset);
              State() == s && n == count && buffer[..] == Splice(old(buffer[..]), off, bytes)
    {
      var fd := OpenByName(name);
      if fd < 0 { return -1; }
      var _ := files.FileSeek(fd, offset, inodes);
      n := files.FileRead(fd, buffer, off, size, inodes);
      files.FileClose(fd, inodes);
    }
  }

  lemma ReadCountBound(s: Session, fd: int, n: Word)
    requires CanRead(s, fd, n)
    ensures |Read(s, fd, n).2| <= n && Read(s, fd, n).1 <= n
  {
  }

  /** A freshly opened descriptor stands at 0 already. */
  lemma SeekToStart(s: Session, fd: int)
    requires Open(s.fds, fd) && s.fds[fd].position == 0
    ensures Seek(s, fd, 0).0 == s
  {
    assert s.fds[fd := s.fds[fd]] == s.fds;
  }

  lemma {:induction false} UpToNulTerminated(b: seq<Byte>, memory: seq<Byte>)
    requires b + [0] <= memory
    ensures UpToNul(memory) == UpToNul(b)
  {
    assert memory[..|b| + 1] == b + [0];
    if b != [] && b[0] != 0 {
      UpToNulTerminated(b[1..], memory[1..]);
    }
  }

  lemma ChainStep(t: Table, i: nat, n: nat, k: nat)
    requires Rooted(t, i, n) && k < n
    ensures var c := Chain(t, i, n); c[k] < MAX_INODES && c[k + 1] == t[c[k]].parent
    decreases n
  {
    if k > 0 {
      ChainStep(t, t[i].parent, n - 1, k - 1);
    }
  }
}
