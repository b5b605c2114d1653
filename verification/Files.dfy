/** `fs/file.c`: lookups in the inode array, file creation and the descriptor table, in place. */
module Files {
  import opened Machine
  import opened CString
  import opened InodeLayout
  import opened FileTree
  import opened Descriptors

  /** What a directory scan needs: entries within the array, and names that end. */
  ghost predicate Searchable(t: Table, d: int) {
    IsDir(t, d) ==>
      && t[d].numEntries <= MAX_DIR_ENTRIES
      && forall k :: Lists(t, d, k) && Child(t, d, k) < MAX_INODES ==> 0 in t[Child(t, d, k)].name
  }

  /** In a tree every directory can be searched, so the calls' demands hold after every run. */
  lemma TreeSearchable(t: Table, d: int)
    requires IsTree(t)
    ensures Searchable(t, d)
  {
    if IsDir(t, d) {
      forall k | Lists(t, d, k) ensures Child(t, d, k) < MAX_INODES && 0 in t[Child(t, d, k)].name {
        assert Used(t, Child(t, d, k));
      }
    }
  }

  method FindInodeInDir(inodes: array<Inode>, dir: Word, name: seq<Byte>) returns (r: int)
    requires inodes.Length == MAX_INODES && Searchable(inodes[..], dir) && 0 in name
    ensures r == Find(inodes[..], dir, UpToNul(name))
  {
    if dir >= MAX_INODES { return -1; }
    if inodes[dir].itype != INODE_DIR { return -1; }
    var i := 0;
    while i < inodes[dir].numEntries
      invariant i <= inodes[dir].numEntries
      invariant Find(inodes[..], dir, UpToNul(name)) == FindFrom(inodes[..], dir, UpToNul(name), i)
    {
      assert Lists(inodes[..], dir, i);
      var child := inodes[dir].entries[i];
      if child < MAX_INODES {
        var diff := StrCmp(inodes[child].name, name);
        if diff == 0 { return child; }
      }
      i := i + 1;
    }
    return -1;
  }

  method FindFreeInode(inodes: array<Inode>) returns (r: int)
    requires inodes.Length == MAX_INODES
    ensures r == FreeFrom(inodes[..], 0)
  {
    for i := 0 to MAX_INODES
      invariant FreeFrom(inodes[..], 0) == FreeFrom(inodes[..], i)
    {
      if inodes[i].itype == INODE_FREE { return i; }
    }
    return -1;
  }

  /** A zeroed inode named by `strncpy` of at most 31 bytes. */
  method FreshInode(name: seq<Byte>, itype: Word, parent: Word) returns (inode: Inode)
    requires 0 in name
    ensures inode == NewInode(UpToNul(name), itype, parent)
  {
    inode := Zero();
    var field := new Byte[MAX_FILENAME](i requires 0 <= i < MAX_FILENAME => inode.name[i]);
    StrNCpy(field, name, MAX_FILENAME - 1);
    field[MAX_FILENAME - 1] := 0;
    inode := inode.(name := field[..], itype := itype, size := 0, parent := parent, numEntries := 0);
    assert inode.name == NewInode(UpToNul(name), itype, parent).name;
  }

  method FileCreate(name: seq<Byte>, parent: Word, inodes: array<Inode>) returns (r: int)
    requires inodes.Length == MAX_INODES && parent < MAX_INODES
    requires Searchable(inodes[..], parent) && 0 in name
    modifies inodes
    ensures var (t, n) := (old(inodes[..]), UpToNul(name));
            if CanCreate(t, parent, n) then inodes[..] == Create(t, parent, n, INODE_FILE) && r == FreeFrom(t, 0)
            else inodes[..] == t && r == -1
  {
    var idx := FindFreeInode(inodes);
    if idx < 0 { return -1; }
    if inodes[parent].itype != INODE_DIR { return -1; }
    if inodes[parent].numEntries >= MAX_DIR_ENTRIES { return -1; }
    var found := FindInodeInDir(inodes, parent, name);
    if found >= 0 { return -1; }
    FindFromSound(inodes[..], parent, UpToNul(name), 0);
    FreeFromIsFirst(inodes[..], 0);
    inodes[idx] := FreshInode(name, INODE_FILE, parent);
    inodes[parent] := Link(inodes[parent], idx);
    return idx;
  }

  class FileTable {
    const fds: array<Fd>

    ghost predicate Valid() {
      fds.Length == MAX_OPEN_FILES
    }

    /** The static table starts zeroed: no descriptor in use. */
    constructor ()
      ensures Valid() && fresh(fds) && forall i :: 0 <= i < fds.Length ==> !fds[i].inUse
    {
      fds := new Fd[MAX_OPEN_FILES](_ => Fd(false, 0, 0));
    }

    /** The inode array and this table as one value. */
    ghost function State(inodes: array<Inode>): Session
      requires Valid() && inodes.Length == MAX_INODES
      reads fds, inodes
    {
      Session(inodes[..], fds[..])
    }

    method FindFreeFd() returns (r: int)
      requires Valid()
      ensures r == FreeFd(fds[..], 0)
    {
      for i := 0 to MAX_OPEN_FILES
        invariant FreeFd(fds[..], 0) == FreeFd(fds[..], i)
      {
        if !fds[i].inUse { return i; }
      }
      return -1;
    }

    method FileOpen(i: Word, inodes: array<Inode>) returns (r: int)
      requires Valid() && inodes.Length == MAX_INODES && fds as object != inodes
      modifies fds
      ensures (State(inodes), r) == OpenFile(old(State(inodes)), i)
    {
      if i >= MAX_INODES { return -1; }
      if inodes[i].itype != INODE_FILE { return -1; }
      var fd := FindFreeFd();
      if fd < 0 { return -1; }
      fds[fd] := Fd(true, i, 0);
      return fd;
    }

    /** Copies into `buffer` from `off` on, and nothing else of it changes. */
    method FileRead(fd: int, buffer: array<Byte>, off: nat, n: Word, inodes: array<Inode>) returns (r: int)
      requires Valid() && inodes.Length == MAX_INODES
      requires fds as object != inodes && buffer as object != fds && buffer as object != inodes
      requires CanRead(State(inodes), fd, n) && off + |Read(State(inodes), fd, n).2| <= buffer.Length
      modifies fds, buffer
      ensures var (s, count, bytes) := Read(old(State(inodes)), fd, n);
              State(inodes) == s && r == count && buffer[..] == Splice(old(buffer[..]), off, bytes)
    {
      if fd < 0 || fd >= MAX_OPEN_FILES || !fds[fd].inUse { return -1; }
      var inode := inodes[fds[fd].inode];
      var pos := fds[fd].position;
      ReadStaysInside(pos, n, inode.size);
      var count := n;
      if AddW(pos, count) > inode.size { count := SubW(inode.size, pos); }
      MemCpy(buffer, off, inode.data, pos, count);
      fds[fd] := fds[fd].(position := AddW(fds[fd].position, count));
      return count;
    }

    /** `memcpy` of the first `n` bytes into the data area of inode `idx`. */
    method StoreData(inodes: array<Inode>, idx: nat, pos: nat, bytes: seq<Byte>, n: nat)
      requires idx < inodes.Length && n <= |bytes| && pos + n <= MAX_FILE_SIZE
      modifies inodes
      ensures inodes[..] == old(inodes[..])[idx := old(inodes[idx]).(data := Splice(old(inodes[idx]).data, pos, bytes[..n]))]
    {
      var data := new Byte[MAX_FILE_SIZE](i requires 0 <= i < MAX_FILE_SIZE reads inodes => inodes[idx].data[i]);
      assert data[..] == inodes[idx].data;
      MemCpy(data, pos, bytes, 0, n);
      assert bytes[0..n] == bytes[..n];
      inodes[idx] := inodes[idx].(data := data[..]);
    }

    method FileWrite(fd: int, bytes: seq<Byte>, inodes: array<Inode>) returns (r: int)
      requires Valid() && inodes.Length == MAX_INODES && fds as object != inodes
      requires |bytes| < TWO_32 && CanWrite(State(inodes), fd, |bytes|)
      modifies fds, inodes
      ensures (State(inodes), r) == Write(old(State(inodes)), fd, bytes)
    {
      if fd < 0 || fd >= MAX_OPEN_FILES || !fds[fd].inUse { return -1; }
      var idx := fds[fd].inode;
      var pos := fds[fd].position;
      WriteStaysInside(pos, |bytes|);
      var count := |bytes|;
      if AddW(pos, count) > MAX_FILE_SIZE { count := SubW(MAX_FILE_SIZE, pos); }
      StoreData(inodes, idx, pos, bytes, count);
      fds[fd] := fds[fd].(position := AddW(fds[fd].position, count));
      if fds[fd].position > inodes[idx].size {
        inodes[idx] := inodes[idx].(size := fds[fd].position);
      }
      assert inodes[..] == old(inodes[..])[idx := WriteAt(old(inodes[idx]), pos, bytes[..count])];
      assert fds[..] == old(fds[..])[fd := old(fds[fd]).(position := AddW(pos, count))];
      return count;
    }

    method FileClose(fd: int, ghost inodes: array<Inode>)
      requires Valid() && inodes.Length == MAX_INODES && fds as object != inodes
      modifies fds
      ensures State(inodes) == Close(old(State(inodes)), fd)
    {
      if fd >= 0 && fd < MAX_OPEN_FILES {
        fds[fd] := fds[fd].(inUse := false);
      }
    }

    method FileSeek(fd: int, offset: Word, ghost inodes: array<Inode>) returns (r: int)
      requires Valid() && inodes.Length == MAX_INODES && fds as object != inodes
      modifies fds
      ensures (State(inodes), r) == Seek(old(State(inodes)), fd, offset)
    {
      if fd < 0 || fd >= MAX_OPEN_FILES || !fds[fd].inUse { return -1; }
      fds[fd] := fds[fd].(position := offset);
      return 0;
    }
  }
}
