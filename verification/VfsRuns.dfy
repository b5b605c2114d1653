/** What holds after every run of file system calls. */
module VfsRuns {
  import opened Machine
  import opened CString
  import opened InodeLayout
  import opened FileTree
  import opened Descriptors
  import opened Paths
  import opened VfsModel

  datatype VfsCall =
    | CallInit
    | CallMkdir(name: seq<Byte>)
    | CallTouch(name: seq<Byte>)
    | CallCd(name: seq<Byte>)
    | CallWrite(name: seq<Byte>, content: seq<Byte>)
    | CallRead(name: seq<Byte>, size: Word, offset: Word)
    | CallCat(name: seq<Byte>)

  /** Names are C strings; reads start within the file and do not wrap. */
  predicate Legal(fs: Fs, c: VfsCall) {
    match c
    case CallInit => true
    case CallRead(n, size, offset) => CanReadAt(fs, n, size, offset)
    case CallWrite(n, content) => NulFree(n) && |content| < INT_LIMIT
    case CallCat(n) => CanReadAt(fs, n, MAX_FILE_SIZE, 0)
    case _ => NulFree(c.name)
  }

  function Step(fs: Fs, c: VfsCall): Fs
    requires Legal(fs, c)
  {
    match c
    case CallInit => Init(fs)
    case CallMkdir(n) => Mkdir(fs, n).0
    case CallTouch(n) => Touch(fs, n).0
    case CallCd(n) => ChangeDir(fs, n).0
    case CallWrite(n, content) => WriteFile(fs, n, content).0
    case CallRead(n, size, offset) => ReadAt(fs, n, size, offset).0
    case CallCat(n) => Cat(fs, n).0
  }

  /** Every call of the run is legal when it is made. */
  predicate LegalRun(fs: Fs, calls: seq<VfsCall>)
    decreases calls
  {
    calls == [] || (Legal(fs, calls[0]) && LegalRun(Step(fs, calls[0]), calls[1..]))
  }

  function Run(fs: Fs, calls: seq<VfsCall>): Fs
    requires LegalRun(fs, calls)
    decreases calls
  {
    if calls == [] then fs else Run(Step(fs, calls[0]), calls[1..])
  }

  /** No write is longer than a file can be. */
  predicate Bounded(c: VfsCall) {
    c.CallWrite? ==> |c.content| <= MAX_FILE_SIZE
  }

  /** Created names fit in their 32 bytes. */
  predicate Short(c: VfsCall) {
    (c.CallMkdir? || c.CallTouch? || c.CallWrite?) ==> |c.name| < MAX_FILENAME
  }

  // ----- what every run keeps

  ghost predicate GoodTable(t: Table) {
    IsTree(t) && SizesFit(t)
  }

  /** A tree in memory, a tree on the drive, the current directory a directory, no descriptor in use. */
  ghost predicate Settled(fs: Fs) {
    GoodTable(fs.s.t) && GoodTable(fs.disk) && IsDir(fs.s.t, fs.cwd) && NoneOpen(fs.s.fds)
  }

  ghost predicate Unique(fs: Fs) {
    UniqueNames(fs.s.t) && UniqueNames(fs.disk)
  }

  lemma CreateKeepsDir(t: Table, d: nat, n: seq<Byte>, itype: Word)
    requires CanCreate(t, d, n)
    ensures IsDir(Create(t, d, n, itype), d)
  {
    FreeFromIsFirst(t, 0);
  }

  lemma CreateGood(t: Table, d: nat, n: seq<Byte>, itype: Word)
    requires GoodTable(t) && CanCreate(t, d, n) && NulFree(n) && itype in {INODE_FILE, INODE_DIR}
    ensures GoodTable(Create(t, d, n, itype)) && IsDir(Create(t, d, n, itype), d)
    ensures UniqueNames(t) && |n| < MAX_FILENAME ==> UniqueNames(Create(t, d, n, itype))
  {
    CreateKeepsTree(t, d, n, itype);
    CreateKeepsDir(t, d, n, itype);
    if UniqueNames(t) { CreateKeepsUnique(t, d, n, itype); }
  }

  lemma NodeKept(fs: Fs, n: seq<Byte>, itype: Word)
    requires Settled(fs) && NulFree(n) && itype in {INODE_FILE, INODE_DIR}
    ensures var fs' := MakeNode(fs, n, itype).0;
            Settled(fs') && (Mirrored(fs) ==> Mirrored(fs')) && (Unique(fs) && |n| < MAX_FILENAME ==> Unique(fs'))
  {
    if CanCreate(fs.s.t, fs.cwd, n) {
      CreateGood(fs.s.t, fs.cwd, n, itype);
    }
  }

  lemma FindInRange(t: Table, d: nat, n: seq<Byte>)
    ensures -1 <= Find(t, d, n) < MAX_INODES
  {
    if IsDir(t, d) { FindFromSound(t, d, n, 0); }
  }

  lemma TargetGood(t: Table, cwd: nat, n: seq<Byte>)
    requires GoodTable(t) && IsDir(t, cwd) && NulFree(n)
    ensures var (t', i) := WriteTarget(t, cwd, n);
            && GoodTable(t') && IsDir(t', cwd) && -1 <= i < MAX_INODES && (i < 0 ==> t' == t)
            && (UniqueNames(t) && |n| < MAX_FILENAME ==> UniqueNames(t'))
  {
    FindInRange(t, cwd, n);
    if Find(t, cwd, n) < 0 && CanCreate(t, cwd, n) {
      CreateGood(t, cwd, n, INODE_FILE);
    }
  }

  lemma OverwrittenGood(t: Table, cwd: nat, i: nat, content: seq<Byte>)
    requires GoodTable(t) && IsDir(t, cwd) && i < MAX_INODES
    ensures var t' := Overwritten(t, i, content);
            GoodTable(t') && IsDir(t', cwd) && (UniqueNames(t) ==> UniqueNames(t'))
  {
    WriteKeepsTree(t, i, 0, Clip(content, MAX_FILE_SIZE));
  }

  /** The name is a file's, or can be created. */
  predicate Writable(fs: Fs, n: seq<Byte>) {
    var i := Find(fs.s.t, fs.cwd, n);
    if i >= 0 then IsFile(fs.s.t, i) else CanCreate(fs.s.t, fs.cwd, n)
  }

  lemma TargetIsFile(fs: Fs, n: seq<Byte>)
    ensures var (t, i) := WriteTarget(fs.s.t, fs.cwd, n);
            (IsFile(t, i) <==> Writable(fs, n)) && (!Writable(fs, n) ==> t == fs.s.t)
  {
    FreeFromIsFirst(fs.s.t, 0);
    FindInRange(fs.s.t, fs.cwd, n);
  }

  lemma WriteKept(fs: Fs, n: seq<Byte>, content: seq<Byte>)
    requires Settled(fs) && NulFree(n) && |content| < INT_LIMIT
    ensures var fs' := WriteFile(fs, n, content).0;
            && Settled(fs') && (Mirrored(fs) && |content| <= MAX_FILE_SIZE ==> Mirrored(fs'))
            && (Unique(fs) && |n| < MAX_FILENAME ==> Unique(fs'))
  {
    var (t, i) := WriteTarget(fs.s.t, fs.cwd, n);
    TargetGood(fs.s.t, fs.cwd, n);
    TargetIsFile(fs, n);
    FreeFdIsFirst(fs.s.fds, 0);
    WriteFileEffect(fs, n, content);
    if Writable(fs, n) {
      OverwrittenGood(t, fs.cwd, i, content);
    }
  }

  lemma CdStays(t: Table, cwd: nat, n: seq<Byte>)
    requires Walkable(t) && IsDir(t, cwd)
    ensures IsDir(t, Cd(t, cwd, n).0)
  {
    assert StepsUp(t, cwd);
  }

  lemma CdKept(fs: Fs, n: seq<Byte>)
    requires Settled(fs)
    ensures Settled(ChangeDir(fs, n).0)
  {
    TreeWalkable(fs.s.t);
    CdStays(fs.s.t, fs.cwd, n);
  }

  lemma InitKept(fs: Fs)
    requires GoodTable(fs.disk)
    ensures Init(fs) == Fs(fs.s.(t := fs.disk), 0, fs.disk) && IsDir(fs.disk, 0)
  {
  }

  lemma StepKept(fs: Fs, c: VfsCall)
    requires Settled(fs) && Legal(fs, c)
    ensures Settled(Step(fs, c))
    ensures Mirrored(fs) && Bounded(c) ==> Mirrored(Step(fs, c))
    ensures Unique(fs) && Short(c) ==> Unique(Step(fs, c))
  {
    match c {
      case CallInit => InitKept(fs);
      case CallMkdir(n) => NodeKept(fs, n, INODE_DIR);
      case CallTouch(n) => NodeKept(fs, n, INODE_FILE);
      case CallCd(n) => CdKept(fs, n);
      case CallWrite(n, content) => WriteKept(fs, n, content);
      case CallRead(n, size, offset) => ReadAtDelivers(fs, n, size, offset);
      case CallCat(n) => ReadAtDelivers(fs, n, MAX_FILE_SIZE, 0);
    }
  }

  /** After every run, whatever calls succeeded or failed, the inodes in memory and on the drive form
      trees and no descriptor is left in use. The drive holds exactly the table in memory if no write was
      oversized, and sibling names are unique if created names had at most 31 bytes. */
  lemma {:induction false} RunKept(fs: Fs, calls: seq<VfsCall>)
    requires Settled(fs) && LegalRun(fs, calls)
    ensures Settled(Run(fs, calls))
    ensures Mirrored(fs) && (forall c :: c in calls ==> Bounded(c)) ==> Mirrored(Run(fs, calls))
    ensures Unique(fs) && (forall c :: c in calls ==> Short(c)) ==> Unique(Run(fs, calls))
    decreases calls
  {
    if calls != [] {
      StepKept(fs, calls[0]);
      RunKept(Step(fs, calls[0]), calls[1..]);
    }
  }

  /** `vfs_cat` reads at most 8192 bytes from the start, which is always safe. */
  lemma CatIsLegal(fs: Fs, n: seq<Byte>)
    requires Settled(fs)
    ensures Legal(fs, CallCat(n))
  {
  }

  // ----- what mkdir, touch and cat do

  /** Inode `i` is a new, empty entry of directory `d`, with the name cut to 31 bytes. */
  ghost predicate IsNewEntry(t: Table, d: nat, i: nat, n: seq<Byte>) {
    && i < MAX_INODES && ListedBy(t, d, i) && t[i].parent == d && t[i].size == 0 && t[i].numEntries == 0
    && NameOf(t[i]) == if |n| <= 31 then n else n[..31]
  }

  lemma CreatedEntry(t: Table, d: nat, n: seq<Byte>, itype: Word)
    requires IsTree(t) && CanCreate(t, d, n) && NulFree(n) && itype in {INODE_FILE, INODE_DIR}
    ensures var (t', i) := (Create(t, d, n, itype), FreeFrom(t, 0));
            IsNewEntry(t', d, i, n) && t'[i].itype == itype && !Used(t, i) && forall j :: 0 <= j < i ==> Used(t, j)
  {
    FreeFromIsFirst(t, 0);
    CreateExtends(t, d, n, itype);
    NewInodeName(n, itype, d);
    assert Lists(Create(t, d, n, itype), d, t[d].numEntries);
  }

  /** A new entry is possible exactly when an inode is free, the current directory has room and no entry with the
      name. Then mkdir makes an empty directory at the first free inode and answers its number, touch makes an
      empty file there and answers 0, and the drive follows; otherwise both answer -1 and change nothing. */
  lemma MakeSpec(fs: Fs, n: seq<Byte>)
    requires Settled(fs) && NulFree(n)
    ensures var (t, d) := (fs.s.t, fs.cwd);
            var (made, i) := Mkdir(fs, n);
            var (touched, r) := Touch(fs, n);
            if (exists i :: 0 <= i < 32 && t[i].itype == 0) && t[d].numEntries < 16
               && (forall i :: Used(t, i) && ListedBy(t, d, i) ==> NameOf(t[i]) != n)
            then
              && 0 <= i < 32 && !Used(t, i) && (forall j :: 0 <= j < i ==> Used(t, j)) && r == 0
              && IsNewEntry(made.s.t, d, i, n) && made.s.t[i].itype == 2 && Mirrored(made) && made.cwd == d
              && IsNewEntry(touched.s.t, d, i, n) && touched.s.t[i].itype == 1 && Mirrored(touched) && touched.cwd == d
            else
              i == -1 && made == fs && r == -1 && touched == fs
  {
    CanCreateIff(fs.s.t, fs.cwd, n);
    if CanCreate(fs.s.t, fs.cwd, n) {
      CreatedEntry(fs.s.t, fs.cwd, n, INODE_DIR);
      CreatedEntry(fs.s.t, fs.cwd, n, INODE_FILE);
    }
  }

  /** The text is `b` up to its first NUL, and it ends the line unless `b` does. */
  ghost predicate PrintsLine(b: seq<Byte>, text: seq<Byte>) {
    && (b == [] ==> text == [])
    && (b != [] && 0 !in b ==> text == if b[|b| - 1] == 10 then b else b + [10])
    && (forall k :: 0 <= k < |b| && b[k] == 0 && 0 !in b[..k] ==>
          text == if b[|b| - 1] == 10 then b[..k] else b[..k] + [10])
  }

  lemma CatTextPrints(b: seq<Byte>)
    ensures PrintsLine(b, CatText(b))
  {
    if 0 !in b {
      UpToNulOf(b, []);
      assert b + [] == b;
    }
    forall k | 0 <= k < |b| && b[k] == 0 && 0 !in b[..k]
      ensures CatText(b) == if b[|b| - 1] == 10 then b[..k] else b[..k] + [10]
    {
      UpToNulOf(b[..k], b[k..]);
      assert b[..k] + b[k..] == b;
    }
  }

  /** `vfs_cat` prints the whole file up to its first NUL, and ends the line if the file does not; nothing for an
      empty file. For anything but a file it answers -1. */
  lemma CatSpec(fs: Fs, n: seq<Byte>)
    requires Settled(fs)
    ensures CanReadAt(fs, n, MAX_FILE_SIZE, 0)
    ensures var (fs', r, out) := Cat(fs, n);
            && fs'.s.t == fs.s.t && fs'.disk == fs.disk && fs'.cwd == fs.cwd
            && if IsFile(fs.s.t, Find(fs.s.t, fs.cwd, n)) then
                 r == 0 && PrintsLine(Bytes(fs, n), out)
               else r == -1 && out == []
  {
    CatIsLegal(fs, n);
    ReadAtDelivers(fs, n, MAX_FILE_SIZE, 0);
    FreeFdIsFirst(fs.s.fds, 0);
    if IsFile(fs.s.t, Find(fs.s.t, fs.cwd, n)) {
      var b := Bytes(fs, n);
      assert b[0..|b|] == b;
      CatTextPrints(b);
    }
  }

  // ----- starting up

  /** Initialising takes the table of the drive. If inode 0 is no directory there, it becomes one with an empty
      name and no entries, which is written back; the other inodes stay. */
  lemma InitSpec(fs: Fs)
    ensures var fs' := Init(fs);
            && fs'.cwd == 0 && fs'.s.fds == fs.s.fds && fs'.disk == fs'.s.t
            && (fs.disk[0].itype == 2 ==> fs'.s.t == fs.disk)
            && (fs.disk[0].itype != 2 ==>
                  && fs'.s.t[0].itype == 2 && NameOf(fs'.s.t[0]) == [] && fs'.s.t[0].numEntries == 0
                  && fs'.s.t[0].parent == 0 && fs'.s.t[0].size == 0
                  && forall i :: 0 < i < 32 ==> fs'.s.t[i] == fs.disk[i])
  {
    assert Zero().name[0] == 0;
  }

  ghost predicate AllFree(t: Table) {
    forall i :: 0 < i < MAX_INODES ==> !Used(t, i)
  }

  lemma FreshRootTree(t: Table)
    requires AllFree(t)
    ensures GoodTable(FreshRoot(t)) && UniqueNames(FreshRoot(t))
  {
    var r := FreshRoot(t);
    forall i | Used(r, i) ensures i == 0 {
      assert i == 0 || !Used(t, i);
    }
    assert UpToNul(r[0].name) == [] && 0 in r[0].name by {
      assert r[0].name[0] == 0;
    }
    assert forall d :: IsDir(r, d) ==> Used(r, d);
    assert Rooted(r, 0, 0) && Reaches(r, 0);
  }

  lemma EmptyRootTree(t: Table)
    requires IsTree(t) && t[0].numEntries == 0
    ensures AllFree(t)
  {
    forall i | 0 < i < MAX_INODES ensures !Used(t, i) {
      if Used(t, i) {
        assert Reaches(t, i);
        var n: nat :| Rooted(t, i, n);
        UnderRoot(t, i, n);
      }
    }
  }

  lemma {:induction false} UnderRoot(t: Table, i: nat, n: nat)
    requires IsTree(t) && Used(t, i) && i != 0 && Rooted(t, i, n)
    ensures t[0].numEntries > 0
    decreases n
  {
    var p := t[i].parent;
    assert ListedBy(t, p, i);
    if p != 0 {
      assert Used(t, p);
      UnderRoot(t, p, n - 1);
    }
  }

  /** `vfs_init` ends with a tree exactly when the drive holds one, or holds no directory at inode 0 and
      nothing but free inodes behind it; a zeroed drive is of the second kind. */
  lemma InitTreeIff(fs: Fs)
    ensures IsTree(Init(fs).s.t) <==> IsTree(fs.disk) || (!IsDir(fs.disk, 0) && AllFree(fs.disk))
    ensures Mirrored(Init(fs)) && Init(fs).cwd == 0
  {
    if !IsDir(fs.disk, 0) {
      var r := FreshRoot(fs.disk);
      assert forall i :: 0 < i < MAX_INODES ==> (Used(r, i) <==> Used(fs.disk, i));
      if AllFree(fs.disk) {
        FreshRootTree(fs.disk);
      } else if IsTree(r) {
        EmptyRootTree(r);
      }
    }
  }

  /** A zeroed drive starts a run from a settled state. */
  lemma ZeroedDriveSettles(fs: Fs)
    requires fs.disk == seq(MAX_INODES, _ => Zero()) && NoneOpen(fs.s.fds)
    ensures Settled(Init(fs)) && Mirrored(Init(fs)) && Unique(Init(fs))
  {
    FreshRootTree(fs.disk);
  }

  /** A reboot after any run without oversized writes: `vfs_init`, on whatever the memory now holds, gets
      back the whole table, with the root as current directory. */
  lemma RebootRestores(fs: Fs, calls: seq<VfsCall>, memory: Session, cwd: nat)
    requires Settled(fs) && Mirrored(fs) && LegalRun(fs, calls) && forall c :: c in calls ==> Bounded(c)
    ensures var before := Run(fs, calls);
            Init(Fs(memory, cwd, before.disk)) == Fs(memory.(t := before.s.t), 0, before.disk)
  {
    RunKept(fs, calls);
    InitKept(Fs(memory, cwd, Run(fs, calls).disk));
  }

  // ----- what the drive holds

  /** The call ends with a sync, or, for `vfs_init`, with the table of the drive in memory. */
  predicate Syncs(fs: Fs, c: VfsCall) {
    match c
    case CallInit => true
    case CallMkdir(n) => CanCreate(fs.s.t, fs.cwd, n)
    case CallTouch(n) => CanCreate(fs.s.t, fs.cwd, n)
    case CallWrite(n, content) => Writable(fs, n) && |content| <= MAX_FILE_SIZE
    case _ => false
  }

  /** Whatever the drive has missed, a syncing call brings it up to date; no other call touches it. */
  lemma StepSyncs(fs: Fs, c: VfsCall)
    requires Settled(fs) && Legal(fs, c)
    ensures Syncs(fs, c) ==> Mirrored(Step(fs, c))
    ensures !Syncs(fs, c) ==> Step(fs, c).disk == fs.disk
  {
    match c {
      case CallWrite(n, content) =>
        TargetIsFile(fs, n);
        FreeFdIsFirst(fs.s.fds, 0);
        WriteFileEffect(fs, n, content);
      case CallRead(n, size, offset) => ReadAtDelivers(fs, n, size, offset);
      case CallCat(n) => ReadAtDelivers(fs, n, MAX_FILE_SIZE, 0);
      case _ =>
    }
  }

  /** The number of calls up to and including the last syncing one; 0 if there is none. */
  function LastSync(fs: Fs, calls: seq<VfsCall>): (k: nat)
    requires LegalRun(fs, calls)
    ensures k <= |calls|
    decreases calls
  {
    if calls == [] then 0
    else
      var k := LastSync(Step(fs, calls[0]), calls[1..]);
      if k > 0 then k + 1 else if Syncs(fs, calls[0]) then 1 else 0
  }

  /** After every run, oversized writes included, the drive holds the table that was in memory right after the
      last syncing call; what it held at the start if there was none. */
  lemma {:induction false} DriveHoldsLastSync(fs: Fs, calls: seq<VfsCall>)
    requires Settled(fs) && LegalRun(fs, calls)
    ensures var k := LastSync(fs, calls);
            && LegalRun(fs, calls[..k])
            && Run(fs, calls).disk == if k == 0 then fs.disk else Run(fs, calls[..k]).s.t
    decreases calls
  {
    if calls != [] {
      var fs' := Step(fs, calls[0]);
      var k := LastSync(fs', calls[1..]);
      StepKept(fs, calls[0]);
      StepSyncs(fs, calls[0]);
      DriveHoldsLastSync(fs', calls[1..]);
      if k > 0 {
        PrefixRun(fs, calls, k + 1);
      } else if Syncs(fs, calls[0]) {
        FirstRun(fs, calls);
      }
    }
  }

  lemma FirstRun(fs: Fs, calls: seq<VfsCall>)
    requires calls != [] && LegalRun(fs, calls)
    ensures LegalRun(fs, calls[..1]) && Run(fs, calls[..1]) == Step(fs, calls[0])
  {
    assert calls[..1][1..] == [];
  }

  lemma PrefixRun(fs: Fs, calls: seq<VfsCall>, k: nat)
    requires LegalRun(fs, calls) && 0 < k <= |calls| && LegalRun(Step(fs, calls[0]), calls[1..][..k - 1])
    ensures LegalRun(fs, calls[..k]) && Run(fs, calls[..k]) == Run(Step(fs, calls[0]), calls[1..][..k - 1])
  {
    assert calls[..k][1..] == calls[1..][..k - 1];
  }

  /** So a reboot after any run brings back the table of the last syncing call. */
  lemma RebootToLastSync(fs: Fs, calls: seq<VfsCall>, memory: Session, cwd: nat)
    requires Settled(fs) && Mirrored(fs) && LegalRun(fs, calls)
    ensures var k := LastSync(fs, calls);
            && LegalRun(fs, calls[..k])
            && var kept := Run(fs, calls[..k]).s.t;
            Init(Fs(memory, cwd, Run(fs, calls).disk)) == Fs(memory.(t := kept), 0, kept)
  {
    RunKept(fs, calls);
    DriveHoldsLastSync(fs, calls);
    InitKept(Fs(memory, cwd, Run(fs, calls).disk));
  }

  // ----- what a write does

  /** The bytes of the file a name leads to; none if there is no such file yet. */
  function Bytes(fs: Fs, n: seq<Byte>): seq<Byte> {
    var i := Find(fs.s.t, fs.cwd, n);
    if IsFile(fs.s.t, i) then Content(fs.s.t[i]) else []
  }

  /** After a write memory and drive agree exactly when it fits, or stores nothing and they agreed before, or
      the drive already holds what an oversized write leaves in memory. If they agreed before, the last
      means that the file holds those bytes already. */
  lemma WriteMirroredIff(fs: Fs, n: seq<Byte>, content: seq<Byte>)
    requires Settled(fs) && NulFree(n) && |content| < INT_LIMIT
    ensures var (t, i) := WriteTarget(fs.s.t, fs.cwd, n);
            Mirrored(WriteFile(fs, n, content).0) <==>
              if !Writable(fs, n) then Mirrored(fs)
              else |content| <= MAX_FILE_SIZE || fs.disk == Overwritten(t, i, content)
    ensures Mirrored(fs) ==>
      (Mirrored(WriteFile(fs, n, content).0) <==>
         |content| <= MAX_FILE_SIZE || !Writable(fs, n) || Bytes(fs, n) == Clip(content, MAX_FILE_SIZE))
  {
    var (t, i) := WriteTarget(fs.s.t, fs.cwd, n);
    FindInRange(fs.s.t, fs.cwd, n);
    FreeFromIsFirst(fs.s.t, 0);
    TargetIsFile(fs, n);
    FreeFdIsFirst(fs.s.fds, 0);
    WriteFileEffect(fs, n, content);
    if Writable(fs, n) && |content| > MAX_FILE_SIZE {
      OverwrittenSame(t, i, content);
      if Find(fs.s.t, fs.cwd, n) < 0 {
        assert Used(Overwritten(t, i, content), i);
      }
    }
  }

  lemma OverwrittenSame(t: Table, i: nat, content: seq<Byte>)
    requires i < MAX_INODES && t[i].size <= MAX_FILE_SIZE <= |content|
    ensures Overwritten(t, i, content) == t <==> Content(t[i]) == Clip(content, MAX_FILE_SIZE)
  {
    var c := Clip(content, MAX_FILE_SIZE);
    var w := WriteAt(t[i], 0, c);
    assert w.data == c && w.size == MAX_FILE_SIZE;
    assert Overwritten(t, i, content)[i] == w;
    if Content(t[i]) == c {
      assert t[i].data[..MAX_FILE_SIZE] == t[i].data;
      assert w == t[i] && t[i := w] == t;
    }
  }

  /** Any read after a successful write: the new content, followed by what the file held beyond it. */
  lemma ReadBack(fs: Fs, n: seq<Byte>, content: seq<Byte>, size: Word, offset: Word)
    requires Settled(fs) && NulFree(n) && |n| < MAX_FILENAME
    requires |content| <= MAX_FILE_SIZE && WriteFile(fs, n, content).1 == 0
    requires CanReadAt(WriteFile(fs, n, content).0, n, size, offset)
    ensures var (was, fs') := (Bytes(fs, n), WriteFile(fs, n, content).0);
            var all := content + if |content| < |was| then was[|content|..] else [];
            && Bytes(fs', n) == all
            && offset <= |all|
            && ReadAt(fs', n, size, offset).2 == all[offset..Min(offset + size, |all|)]
  {
    var (t, i) := WriteTarget(fs.s.t, fs.cwd, n);
    var fs' := WriteFile(fs, n, content).0;
    FreeFdIsFirst(fs.s.fds, 0);
    TargetIsFile(fs, n);
    WriteFileEffect(fs, n, content);
    TargetFound(fs, n);
    OverwrittenFind(t, i, content, fs.cwd, n);
    OverwrittenContent(t, i, content);
    FreeFdIsFirst(fs'.s.fds, 0);
    ReadAtDelivers(fs', n, size, offset);
  }

  lemma TargetFound(fs: Fs, n: seq<Byte>)
    requires Settled(fs) && NulFree(n) && |n| < MAX_FILENAME && Writable(fs, n)
    ensures var (t, i) := WriteTarget(fs.s.t, fs.cwd, n);
            IsFile(t, i) && IsDir(t, fs.cwd) && Find(t, fs.cwd, n) == i && Content(t[i]) == Bytes(fs, n)
  {
    FreeFromIsFirst(fs.s.t, 0);
    FindInRange(fs.s.t, fs.cwd, n);
    if Find(fs.s.t, fs.cwd, n) < 0 {
      CreateThenFind(fs.s.t, fs.cwd, n, INODE_FILE);
      CreateKeepsDir(fs.s.t, fs.cwd, n, INODE_FILE);
    }
  }

  lemma OverwrittenFind(t: Table, i: nat, content: seq<Byte>, d: nat, n: seq<Byte>)
    requires i < MAX_INODES && IsDir(t, d)
    ensures Find(Overwritten(t, i, content), d, n) == Find(t, d, n)
  {
    SameTreeFind(t, Overwritten(t, i, content), d, n, 0);
  }

  lemma OverwrittenContent(t: Table, i: nat, content: seq<Byte>)
    requires i < MAX_INODES && t[i].size <= MAX_FILE_SIZE && |content| <= MAX_FILE_SIZE
    ensures var was := Content(t[i]);
            Content(Overwritten(t, i, content)[i]) == content + if |content| < |was| then was[|content|..] else []
  {
    assert Clip(content, MAX_FILE_SIZE) == content;
    WrittenContent(t[i], content);
  }

  lemma WrittenContent(i: Inode, content: seq<Byte>)
    requires i.size <= MAX_FILE_SIZE && |content| <= MAX_FILE_SIZE
    ensures var was := Content(i);
            Content(WriteAt(i, 0, content)) == content + if |content| < |was| then was[|content|..] else []
  {
    var c, w := |content|, WriteAt(i, 0, content);
    assert w.data == content + i.data[c..];
    if c < i.size {
      assert w.data[..i.size] == content + i.data[c..i.size];
      ContentSlice(i, c, i.size);
      assert Content(i)[c..] == Content(i)[c..i.size];
    } else {
      assert w.data[..c] == content;
    }
  }

  /** A write changes the content and the name of no other file. */
  lemma WriteLeavesOthers(fs: Fs, n: seq<Byte>, content: seq<Byte>, j: nat)
    requires Settled(fs) && NulFree(n) && |content| < INT_LIMIT && IsFile(fs.s.t, j) && j != Find(fs.s.t, fs.cwd, n)
    ensures var t' := WriteFile(fs, n, content).0.s.t;
            IsFile(t', j) && Content(t'[j]) == Content(fs.s.t[j]) && t'[j].name == fs.s.t[j].name
  {
    var (t, i) := WriteTarget(fs.s.t, fs.cwd, n);
    FreeFromIsFirst(fs.s.t, 0);
    FindInRange(fs.s.t, fs.cwd, n);
    WriteFileEffect(fs, n, content);
  }
}
