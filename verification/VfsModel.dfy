/** The file system calls as functions of one state: the inode table and descriptors in memory, the
    current directory, and the inode table the drive holds. */
module VfsModel {
  import opened Machine
  import opened CString
  import opened InodeLayout
  import opened FileTree
  import opened Descriptors
  import opened Paths

  datatype Fs = Fs(s: Session, cwd: nat, disk: Table)

  const NEWLINE: Byte := 10

  /** `strlen` counts in an `int`, so a longer string has no length. */
  const INT_LIMIT: int := 0x8000_0000

  /** The bytes of a file. */
  function Content(i: Inode): seq<Byte> {
    if i.size <= MAX_FILE_SIZE then i.data[..i.size] else i.data
  }

  // ----- the calls

  function Sync(fs: Fs): Fs {
    fs.(disk := fs.s.t)
  }

  /** A table whose inode 0 is an empty directory. */
  function FreshRoot(t: Table): Table {
    t[0 := Zero().(itype := INODE_DIR)]
  }

  function Init(fs: Fs): Fs {
    var t := if fs.disk[0].itype == INODE_DIR then fs.disk else FreshRoot(fs.disk);
    Fs(fs.s.(t := t), 0, t)
  }

  /** `vfs_mkdir` and `vfs_touch` differ in the type they create and in their answer. */
  function MakeNode(fs: Fs, n: seq<Byte>, itype: Word): (Fs, int) {
    if CanCreate(fs.s.t, fs.cwd, n) then
      (Sync(fs.(s := fs.s.(t := Create(fs.s.t, fs.cwd, n, itype)))), FreeFrom(fs.s.t, 0))
    else (fs, -1)
  }

  function Mkdir(fs: Fs, n: seq<Byte>): (Fs, int) {
    MakeNode(fs, n, INODE_DIR)
  }

  function Touch(fs: Fs, n: seq<Byte>): (Fs, int) {
    var (fs', r) := MakeNode(fs, n, INODE_FILE);
    (fs', if r < 0 then -1 else 0)
  }

  function ChangeDir(fs: Fs, n: seq<Byte>): (Fs, int) {
    var (d, r) := Cd(fs.s.t, fs.cwd, n);
    (fs.(cwd := d), r)
  }

  /** Open by name, seek, read and close; -1 for anything that is not a file, or with all descriptors in use. */
  predicate CanReadAt(fs: Fs, n: seq<Byte>, size: Word, offset: Word) {
    var i := Find(fs.s.t, fs.cwd, n);
    IsFile(fs.s.t, i) ==> offset <= fs.s.t[i].size <= MAX_FILE_SIZE && offset + size < TWO_32
  }

  function ReadAt(fs: Fs, n: seq<Byte>, size: Word, offset: Word): (Fs, int, seq<Byte>)
    requires CanReadAt(fs, n, size, offset)
  {
    var i := Find(fs.s.t, fs.cwd, n);
    if !IsFile(fs.s.t, i) then (fs, -1, [])
    else
      var (s1, fd) := OpenFile(fs.s, i);
      if fd < 0 then (fs, -1, [])
      else
        var s2 := Seek(s1, fd, offset).0;
        var (s3, count, bytes) := Read(s2, fd, size);
        (fs.(s := Close(s3, fd)), count, bytes)
  }

  /** What `vfs_cat` prints: the bytes up to the first NUL, and a newline unless the file ends in one. */
  function CatText(bytes: seq<Byte>): seq<Byte> {
    if bytes == [] then [] else UpToNul(bytes) + if bytes[|bytes| - 1] != NEWLINE then [NEWLINE] else []
  }

  function Cat(fs: Fs, n: seq<Byte>): (Fs, int, seq<Byte>)
    requires CanReadAt(fs, n, MAX_FILE_SIZE, 0)
  {
    var (fs', count, bytes) := ReadAt(fs, n, MAX_FILE_SIZE, 0);
    (fs', if count < 0 then -1 else 0, CatText(bytes))
  }

  /** The table `vfs_write_file` opens the file in, and the file's inode or -1. */
  function WriteTarget(t: Table, cwd: nat, n: seq<Byte>): (Table, int) {
    if Find(t, cwd, n) >= 0 then (t, Find(t, cwd, n))
    else if CanCreate(t, cwd, n) then (Create(t, cwd, n, INODE_FILE), FreeFrom(t, 0))
    else (t, -1)
  }

  function WriteFile(fs: Fs, n: seq<Byte>, content: seq<Byte>): (Fs, int)
    requires |content| < INT_LIMIT
  {
    var (t, i) := WriteTarget(fs.s.t, fs.cwd, n);
    var s0 := fs.s.(t := t);
    if !IsFile(t, i) || OpenFile(s0, i).1 < 0 then (fs.(s := s0), -1)
    else
      var (s1, fd) := OpenFile(s0, i);
      var (s2, written) := Write(s1, fd, content);
      var fs' := fs.(s := Close(s2, fd));
      if written < |content| then (fs', -1) else (Sync(fs'), 0)
  }

  /** The drive holds exactly the inode table in memory. */
  ghost predicate Mirrored(fs: Fs) {
    fs.disk == fs.s.t
  }

  ghost predicate NoneOpen(fds: FdTable) {
    forall fd :: 0 <= fd < MAX_OPEN_FILES ==> !fds[fd].inUse
  }

  // ----- meaning of the composed calls

  lemma ContentSlice(i: Inode, lo: nat, hi: nat)
    requires lo <= hi <= i.size <= MAX_FILE_SIZE
    ensures Content(i)[lo..hi] == i.data[lo..hi]
  {
  }

  lemma OpenSeekReadClose(s: Session, i: Word, size: Word, offset: Word)
    requires IsFile(s.t, i) && FreeFd(s.fds, 0) >= 0
    requires offset <= s.t[i].size <= MAX_FILE_SIZE && offset + size < TWO_32
    ensures var (s1, fd) := OpenFile(s, i);
            var s2 := Seek(s1, fd, offset).0;
            && CanRead(s2, fd, size)
            && var (s3, count, bytes) := Read(s2, fd, size);
            && bytes == Content(s.t[i])[offset..Min(offset + size, s.t[i].size)] && count == |bytes|
            && Close(s3, fd).t == s.t
            && forall k :: 0 <= k < MAX_OPEN_FILES ==>
                 Close(s3, fd).fds[k].inUse == s.fds[k].inUse && (s.fds[k].inUse ==> Close(s3, fd).fds[k] == s.fds[k])
  {
    FreeFdIsFirst(s.fds, 0);
    ReadStaysInside(offset, size, s.t[i].size);
    ContentSlice(s.t[i], offset, Min(offset + size, s.t[i].size));
  }

  /** Reading by name delivers the file's bytes from the offset on, and changes neither the inode table,
      the drive nor any open descriptor. */
  lemma ReadAtDelivers(fs: Fs, n: seq<Byte>, size: Word, offset: Word)
    requires CanReadAt(fs, n, size, offset)
    ensures var i := Find(fs.s.t, fs.cwd, n);
            var (fs', count, bytes) := ReadAt(fs, n, size, offset);
            && (if IsFile(fs.s.t, i) && FreeFd(fs.s.fds, 0) >= 0
                then bytes == Content(fs.s.t[i])[offset..Min(offset + size, fs.s.t[i].size)] && count == |bytes|
                else count == -1 && bytes == [])
            && fs' == fs.(s := fs.s.(fds := fs'.s.fds))
            && forall k :: 0 <= k < MAX_OPEN_FILES ==>
                 fs'.s.fds[k].inUse == fs.s.fds[k].inUse && (fs.s.fds[k].inUse ==> fs'.s.fds[k] == fs.s.fds[k])
  {
    var i := Find(fs.s.t, fs.cwd, n);
    if IsFile(fs.s.t, i) && FreeFd(fs.s.fds, 0) >= 0 {
      OpenSeekReadClose(fs.s, i, size, offset);
    }
  }

  /** The table after a write of `content` at the start of file `i`. */
  function Overwritten(t: Table, i: nat, content: seq<Byte>): Table
    requires i < MAX_INODES
  {
    t[i := WriteAt(t[i], 0, Clip(content, MAX_FILE_SIZE))]
  }

  lemma OpenWriteClose(s: Session, i: Word, content: seq<Byte>)
    requires IsFile(s.t, i) && FreeFd(s.fds, 0) >= 0 && |content| < INT_LIMIT
    ensures var (s1, fd) := OpenFile(s, i);
            && CanWrite(s1, fd, |content|)
            && var (s2, written) := Write(s1, fd, content);
            && written == Min(|content|, MAX_FILE_SIZE)
            && Close(s2, fd).t == Overwritten(s.t, i, content)
            && forall k :: 0 <= k < MAX_OPEN_FILES ==>
                 Close(s2, fd).fds[k].inUse == s.fds[k].inUse && (s.fds[k].inUse ==> Close(s2, fd).fds[k] == s.fds[k])
  {
    FreeFdIsFirst(s.fds, 0);
    WriteStaysInside(0, |content|);
  }

  /** The tables in memory and on the drive after `vfs_write_file`. The drive is updated when the whole
      content was written; an oversized write leaves the memory ahead of the drive. */
  lemma WriteFileEffect(fs: Fs, n: seq<Byte>, content: seq<Byte>)
    requires |content| < INT_LIMIT
    ensures var (t, i) := WriteTarget(fs.s.t, fs.cwd, n);
            var (fs', r) := WriteFile(fs, n, content);
            && fs'.cwd == fs.cwd
            && (if !IsFile(t, i) || FreeFd(fs.s.fds, 0) < 0 then
                  fs'.s.t == t && fs'.disk == fs.disk && r == -1
                else
                  && fs'.s.t == Overwritten(t, i, content)
                  && (|content| <= MAX_FILE_SIZE ==> r == 0 && fs'.disk == fs'.s.t)
                  && (|content| > MAX_FILE_SIZE ==> r == -1 && fs'.disk == fs.disk))
            && forall k :: 0 <= k < MAX_OPEN_FILES ==>
                 fs'.s.fds[k].inUse == fs.s.fds[k].inUse && (fs.s.fds[k].inUse ==> fs'.s.fds[k] == fs.s.fds[k])
  {
    var (t, i) := WriteTarget(fs.s.t, fs.cwd, n);
    if IsFile(t, i) && FreeFd(fs.s.fds, 0) >= 0 {
      OpenWriteClose(fs.s.(t := t), i, content);
    }
  }
}
