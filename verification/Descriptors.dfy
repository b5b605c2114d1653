/** The descriptor table: what open, read, write, seek and close do to files and positions. */
module Descriptors {
  import opened Machine
  import opened CString
  import opened InodeLayout
  import opened FileTree

  const MAX_OPEN_FILES: int := 32

  datatype Fd = Fd(inUse: bool, inode: Word, position: Word)

  type FdTable = f: seq<Fd> | |f| == MAX_OPEN_FILES witness seq(MAX_OPEN_FILES, _ => Fd(false, 0, 0))

  /** The inode table together with the descriptors open on it. */
  datatype Session = Session(t: Table, fds: FdTable)

  datatype Option<T> = None | Some(value: T)

  predicate Open(fds: FdTable, fd: int) {
    0 <= fd < MAX_OPEN_FILES && fds[fd].inUse
  }

  /** The first unused descriptor from `k` on, or -1. */
  function FreeFd(fds: FdTable, k: nat): (r: int)
    requires k <= MAX_OPEN_FILES
    ensures -1 <= r < MAX_OPEN_FILES
    decreases MAX_OPEN_FILES - k
  {
    if k == MAX_OPEN_FILES then -1 else if !fds[k].inUse then k else FreeFd(fds, k + 1)
  }

  // ----- how many bytes a call moves

  /** Bytes `file_read` copies, in the code's own 32-bit arithmetic. */
  function ReadCount(pos: Word, n: Word, size: Word): Word {
    if AddW(pos, n) > size then SubW(size, pos) else n
  }

  /** Bytes `file_write` copies. */
  function WriteCount(pos: Word, n: Word): Word {
    if AddW(pos, n) > MAX_FILE_SIZE then SubW(MAX_FILE_SIZE, pos) else n
  }

  /** The copy of `file_read` stays inside the data area exactly when the position is not past the end
      and position plus length does not wrap. */
  lemma ReadStaysInside(pos: Word, n: Word, size: Word)
    requires size <= MAX_FILE_SIZE
    ensures pos + ReadCount(pos, n, size) <= MAX_FILE_SIZE <==> pos <= size && pos + n < TWO_32
    ensures pos <= size && pos + n < TWO_32 ==> pos + ReadCount(pos, n, size) == Min(pos + n, size)
  {
  }

  lemma WriteStaysInside(pos: Word, n: Word)
    ensures pos + WriteCount(pos, n) <= MAX_FILE_SIZE <==> pos <= MAX_FILE_SIZE && pos + n < TWO_32
    ensures pos <= MAX_FILE_SIZE && pos + n < TWO_32 ==> pos + WriteCount(pos, n) == Min(pos + n, MAX_FILE_SIZE)
  {
  }

  // ----- the calls

  function OpenFile(s: Session, i: Word): (Session, int) {
    var fd := FreeFd(s.fds, 0);
    if !IsFile(s.t, i) || fd < 0 then (s, -1) else (s.(fds := s.fds[fd := Fd(true, i, 0)]), fd)
  }

  /** The descriptor's inode exists, and a transfer of `n` bytes cannot leave the data area. */
  predicate CanRead(s: Session, fd: int, n: Word) {
    Open(s.fds, fd) ==>
      var f := s.fds[fd];
      f.inode < MAX_INODES && f.position <= s.t[f.inode].size <= MAX_FILE_SIZE && f.position + n < TWO_32
  }

  predicate CanWrite(s: Session, fd: int, n: Word) {
    Open(s.fds, fd) ==>
      var f := s.fds[fd];
      f.inode < MAX_INODES && f.position <= MAX_FILE_SIZE && f.position + n < TWO_32
  }

  /** The new state, the answer, and the bytes delivered. */
  function Read(s: Session, fd: int, n: Word): (Session, int, seq<Byte>)
    requires CanRead(s, fd, n)
  {
    if !Open(s.fds, fd) then (s, -1, [])
    else
      var f := s.fds[fd];
      ReadStaysInside(f.position, n, s.t[f.inode].size);
      var c: int := ReadCount(f.position, n, s.t[f.inode].size);
      (s.(fds := s.fds[fd := f.(position := AddW(f.position, c))]), c,
       s.t[f.inode].data[f.position..f.position + c])
  }

  function Write(s: Session, fd: int, bytes: seq<Byte>): (Session, int)
    requires |bytes| < TWO_32 && CanWrite(s, fd, |bytes|)
  {
    if !Open(s.fds, fd) then (s, -1)
    else
      var f := s.fds[fd];
      WriteStaysInside(f.position, |bytes|);
      var c: int := WriteCount(f.position, |bytes|);
      (Session(s.t[f.inode := WriteAt(s.t[f.inode], f.position, bytes[..c])],
               s.fds[fd := f.(position := AddW(f.position, c))]), c)
  }

  function Seek(s: Session, fd: int, offset: Word): (Session, int) {
    if !Open(s.fds, fd) then (s, -1) else (s.(fds := s.fds[fd := s.fds[fd].(position := offset)]), 0)
  }

  function Close(s: Session, fd: int): Session {
    if 0 <= fd < MAX_OPEN_FILES then s.(fds := s.fds[fd := s.fds[fd].(inUse := false)]) else s
  }

  lemma FreeFdIsFirst(fds: FdTable, k: nat)
    requires k <= MAX_OPEN_FILES
    ensures FreeFd(fds, k) == -1 <==> forall j :: k <= j < MAX_OPEN_FILES ==> fds[j].inUse
    ensures FreeFd(fds, k) >= 0 ==> k <= FreeFd(fds, k) && !fds[FreeFd(fds, k)].inUse
    decreases MAX_OPEN_FILES - k
  {
    if k < MAX_OPEN_FILES && fds[k].inUse {
      FreeFdIsFirst(fds, k + 1);
    }
  }

  lemma {:induction false} LowerInUse(fds: FdTable, k: nat, j: nat)
    requires k <= j < MAX_OPEN_FILES && (FreeFd(fds, k) == -1 || j < FreeFd(fds, k))
    ensures fds[j].inUse
    decreases MAX_OPEN_FILES - k
  {
    if k < j { LowerInUse(fds, k + 1, j); }
  }

  /** Opening succeeds exactly for a file while one of the 32 descriptors is unused. It takes the first such
      descriptor, at position 0, and changes nothing else; otherwise it answers -1 and changes nothing. */
  lemma OpenSpec(s: Session, i: Word)
    ensures var (s', fd) := OpenFile(s, i);
            && (fd >= 0 <==> i < 32 && s.t[i].itype == 1 && exists k :: 0 <= k < 32 && !s.fds[k].inUse)
            && (fd >= 0 ==>
                  && fd < 32 && !s.fds[fd].inUse && (forall k :: 0 <= k < fd ==> s.fds[k].inUse)
                  && s' == s.(fds := s.fds[fd := Fd(true, i, 0)]))
            && (fd < 0 ==> fd == -1 && s' == s)
  {
    FreeFdIsFirst(s.fds, 0);
    var fd := FreeFd(s.fds, 0);
    forall k | 0 <= k < fd ensures s.fds[k].inUse {
      LowerInUse(s.fds, 0, k);
    }
  }

  /** A seek on an open descriptor sets any position, behind the end of the file too, and answers 0. */
  lemma SeekSpec(s: Session, fd: int, offset: Word)
    requires Open(s.fds, fd)
    ensures var (s', r) := Seek(s, fd, offset);
            && r == 0 && s'.t == s.t && s'.fds[fd] == Fd(true, s.fds[fd].inode, offset)
            && forall k :: 0 <= k < 32 && k != fd ==> s'.fds[k] == s.fds[k]
  {
  }

  /** A closed descriptor is closed for every call until it is opened again; the others go on as before. */
  lemma ClosedRefuses(s: Session, fd: int, n: Word, bytes: seq<Byte>, offset: Word)
    requires |bytes| < TWO_32
    ensures var s' := Close(s, fd);
            && s'.t == s.t && (forall k :: 0 <= k < 32 && k != fd ==> s'.fds[k] == s.fds[k])
            && Read(s', fd, n) == (s', -1, []) && Write(s', fd, bytes) == (s', -1) && Seek(s', fd, offset) == (s', -1)
  {
  }

  // ----- whole runs on shared files

  /** Every open descriptor names a file and stands at most at its end. */
  ghost predicate Positions(s: Session) {
    forall fd :: Open(s.fds, fd) ==>
      IsFile(s.t, s.fds[fd].inode) && s.fds[fd].position <= s.t[s.fds[fd].inode].size <= MAX_FILE_SIZE
  }

  datatype FileCall =
    | CallOpen(i: Word)
    | CallRead(fd: int, n: Word)
    | CallWrite(fd: int, bytes: seq<Byte>)
    | CallSeek(fd: int, offset: Word)
    | CallClose(fd: int)
    | CallCreate(d: Word, name: seq<Byte>)

  /** What a caller has to respect: lengths that do not wrap, seeks at most to the end of the file. */
  predicate Safe(s: Session, c: FileCall) {
    match c
    case CallRead(fd, n) => Open(s.fds, fd) ==> s.fds[fd].position + n < TWO_32
    case CallWrite(fd, bytes) => |bytes| < TWO_32 && (Open(s.fds, fd) ==> s.fds[fd].position + |bytes| < TWO_32)
    case CallSeek(fd, offset) =>
      Open(s.fds, fd) ==> s.fds[fd].inode < MAX_INODES && offset <= s.t[s.fds[fd].inode].size
    case CallCreate(d, name) => NulFree(name)
    case _ => true
  }

  ghost function FileStep(s: Session, c: FileCall): Session
    requires Positions(s) && Safe(s, c)
  {
    match c
    case CallOpen(i) => OpenFile(s, i).0
    case CallRead(fd, n) => Read(s, fd, n).0
    case CallWrite(fd, bytes) => Write(s, fd, bytes).0
    case CallSeek(fd, offset) => Seek(s, fd, offset).0
    case CallClose(fd) => Close(s, fd)
    case CallCreate(d, name) => if CanCreate(s.t, d, name) then s.(t := Create(s.t, d, name, INODE_FILE)) else s
  }

  /** Writing a file keeps the tree, the names and the bound on sizes. */
  lemma WriteKeepsTree(t: Table, i: nat, pos: nat, bytes: seq<Byte>)
    requires IsTree(t) && i < MAX_INODES && pos + |bytes| <= MAX_FILE_SIZE
    ensures var t' := t[i := WriteAt(t[i], pos, bytes)];
            IsTree(t') && (UniqueNames(t) ==> UniqueNames(t')) && (SizesFit(t) ==> SizesFit(t'))
  {
    var t' := t[i := WriteAt(t[i], pos, bytes)];
    assert SameTree(t, t');
    SameTreeLists(t, t');
    SameTreeKeepsTree(t, t');
  }

  lemma OpenKeepsPositions(s: Session, i: Word)
    requires Positions(s) && SizesFit(s.t)
    ensures Positions(OpenFile(s, i).0)
  {
    FreeFdIsFirst(s.fds, 0);
  }

  lemma WriteKeepsPositions(s: Session, fd: int, bytes: seq<Byte>)
    requires Positions(s) && |bytes| < TWO_32 && CanWrite(s, fd, |bytes|)
    ensures Positions(Write(s, fd, bytes).0)
  {
    if Open(s.fds, fd) {
      var f := s.fds[fd];
      WriteStaysInside(f.position, |bytes|);
      var s' := Write(s, fd, bytes).0;
      assert s'.t[f.inode].size >= s.t[f.inode].size && s'.fds[fd].position <= s'.t[f.inode].size <= MAX_FILE_SIZE;
    }
  }

  lemma CreateKeepsPositions(s: Session, d: nat, name: seq<Byte>)
    requires IsTree(s.t) && Positions(s) && CanCreate(s.t, d, name) && NulFree(name)
    ensures Positions(s.(t := Create(s.t, d, name, INODE_FILE)))
  {
    var t' := Create(s.t, d, name, INODE_FILE);
    CreateExtends(s.t, d, name, INODE_FILE);
    assert forall i :: IsFile(s.t, i) ==> Used(s.t, i) && IsFile(t', i) && t'[i].size == s.t[i].size;
  }

  lemma WriteStepKeepsTree(s: Session, fd: int, bytes: seq<Byte>)
    requires IsTree(s.t) && SizesFit(s.t) && |bytes| < TWO_32 && CanWrite(s, fd, |bytes|)
    ensures IsTree(Write(s, fd, bytes).0.t) && SizesFit(Write(s, fd, bytes).0.t)
  {
    if Open(s.fds, fd) {
      var f := s.fds[fd];
      WriteStaysInside(f.position, |bytes|);
      WriteKeepsTree(s.t, f.inode, f.position, bytes[..WriteCount(f.position, |bytes|)]);
    }
  }

  lemma StepKeepsPositions(s: Session, c: FileCall)
    requires Positions(s) && Safe(s, c) && IsTree(s.t) && SizesFit(s.t)
    ensures Positions(FileStep(s, c))
  {
    match c {
      case CallOpen(i) => OpenKeepsPositions(s, i);
      case CallRead(fd, n) => if Open(s.fds, fd) { ReadAdvances(s, fd, n); }
      case CallWrite(fd, bytes) => WriteKeepsPositions(s, fd, bytes);
      case CallSeek(fd, offset) =>
      case CallClose(fd) =>
      case CallCreate(d, name) => if CanCreate(s.t, d, name) { CreateKeepsPositions(s, d, name); }
    }
  }

  lemma StepKeepsTree(s: Session, c: FileCall)
    requires Positions(s) && Safe(s, c) && IsTree(s.t) && SizesFit(s.t)
    ensures IsTree(FileStep(s, c).t) && SizesFit(FileStep(s, c).t)
  {
    match c {
      case CallWrite(fd, bytes) => WriteStepKeepsTree(s, fd, bytes);
      case CallCreate(d, name) => if CanCreate(s.t, d, name) { CreateKeepsTree(s.t, d, name, INODE_FILE); }
      case CallRead(fd, n) => if Open(s.fds, fd) { ReadAdvances(s, fd, n); }
      case CallSeek(_, _) =>
      case CallOpen(_) =>
      case CallClose(_) =>
    }
  }

  /** The state after the calls, if each was safe when it was made. */
  ghost function FileRun(s: Session, calls: seq<FileCall>): Option<Session>
    requires IsTree(s.t) && SizesFit(s.t) && Positions(s)
    decreases calls
  {
    if calls == [] then Some(s)
    else if Safe(s, calls[0]) then
      StepKeepsPositions(s, calls[0]);
      StepKeepsTree(s, calls[0]);
      FileRun(FileStep(s, calls[0]), calls[1..])
    else None
  }

  /** However many descriptors share files, every one stays at a position within its file. */
  lemma {:induction false} RunKeepsPositions(s: Session, calls: seq<FileCall>)
    requires IsTree(s.t) && SizesFit(s.t) && Positions(s)
    ensures FileRun(s, calls).Some? ==> Positions(FileRun(s, calls).value) && IsTree(FileRun(s, calls).value.t)
    decreases calls
  {
    if calls != [] && Safe(s, calls[0]) {
      StepKeepsPositions(s, calls[0]);
      StepKeepsTree(s, calls[0]);
      RunKeepsPositions(FileStep(s, calls[0]), calls[1..]);
    }
  }

  // ----- chunking

  function Sum(ns: seq<Word>): nat {
    if ns == [] then 0 else ns[0] + Sum(ns[1..])
  }

  function Concat(chunks: seq<seq<Byte>>): seq<Byte> {
    if chunks == [] then [] else chunks[0] + Concat(chunks[1..])
  }

  /** Reads of the given lengths on one descriptor, with nothing in between: state, total, bytes. */
  ghost function ReadAll(s: Session, fd: int, ns: seq<Word>): (Session, int, seq<Byte>)
    requires Positions(s) && Open(s.fds, fd) && s.fds[fd].position + Sum(ns) < TWO_32
    decreases ns
  {
    if ns == [] then (s, 0, [])
    else
      ReadAdvances(s, fd, ns[0]);
      var (s1, c, bytes) := Read(s, fd, ns[0]);
      var (s2, c', rest) := ReadAll(s1, fd, ns[1..]);
      (s2, c + c', bytes + rest)
  }

  /** The session with descriptor `fd` moved to position `p`. */
  function Moved(s: Session, fd: int, p: Word): Session
    requires Open(s.fds, fd)
  {
    s.(fds := s.fds[fd := s.fds[fd].(position := p)])
  }

  lemma MovedTwice(s: Session, fd: int, p: Word, q: Word)
    requires Open(s.fds, fd)
    ensures Moved(Moved(s, fd, p), fd, q) == Moved(s, fd, q)
    ensures Moved(s, fd, s.fds[fd].position) == s
  {
    assert s.fds[fd := s.fds[fd]] == s.fds;
  }

  /** Where a read of `n` bytes stops: at most at the end of the file. */
  function StopAt(s: Session, fd: int, n: nat): int
    requires Open(s.fds, fd) && s.fds[fd].inode < MAX_INODES
  {
    Min(s.fds[fd].position + n, s.t[s.fds[fd].inode].size)
  }

  /** The outcome of a read that stops at `q`. */
  function ReadTo(s: Session, fd: int, q: Word): (Session, int, seq<Byte>)
    requires Open(s.fds, fd) && s.fds[fd].inode < MAX_INODES && s.fds[fd].position <= q <= MAX_FILE_SIZE
  {
    (Moved(s, fd, q), q as int - s.fds[fd].position, s.t[s.fds[fd].inode].data[s.fds[fd].position..q])
  }

  lemma ReadToTwice(s: Session, fd: int, m: Word, q: Word)
    requires Open(s.fds, fd) && s.fds[fd].inode < MAX_INODES && s.fds[fd].position <= m <= q <= MAX_FILE_SIZE
    ensures var (s1, c, a) := ReadTo(s, fd, m); var (s2, c', b) := ReadTo(s1, fd, q);
            ReadTo(s, fd, q) == (s2, c + c', a + b)
  {
    MovedTwice(s, fd, m, q);
    var (data, p) := (s.t[s.fds[fd].inode].data, s.fds[fd].position);
    assert data[p..m] + data[m..q] == data[p..q];
  }

  lemma ReadNothing(s: Session, fd: int)
    requires Positions(s) && Open(s.fds, fd)
    ensures StopAt(s, fd, 0) == s.fds[fd].position && ReadTo(s, fd, s.fds[fd].position) == (s, 0, [])
  {
    var (data, p) := (s.t[s.fds[fd].inode].data, s.fds[fd].position);
    MovedTwice(s, fd, p, p);
    assert data[p..p] == [];
  }

  /** A read moves the position to its stop and delivers the bytes in between. */
  lemma ReadAdvances(s: Session, fd: int, n: Word)
    requires Positions(s) && Open(s.fds, fd) && s.fds[fd].position + n < TWO_32
    ensures var q := StopAt(s, fd, n);
            s.fds[fd].position <= q <= MAX_FILE_SIZE && Read(s, fd, n) == ReadTo(s, fd, q) && Positions(Moved(s, fd, q))
  {
    ReadStaysInside(s.fds[fd].position, n, s.t[s.fds[fd].inode].size);
  }

  /** Reading on from where a read stopped ends where one read of both lengths does. */
  lemma StopsAgree(s: Session, fd: int, n: nat, more: nat)
    requires Positions(s) && Open(s.fds, fd) && s.fds[fd].position + n < TWO_32
    ensures var m := StopAt(s, fd, n);
            && s.fds[fd].position <= m <= MAX_FILE_SIZE && m <= s.fds[fd].position + n
            && StopAt(Moved(s, fd, m), fd, more) == StopAt(s, fd, n + more)
  {
  }

  lemma {:induction false} ReadAllAdvances(s: Session, fd: int, ns: seq<Word>)
    requires Positions(s) && Open(s.fds, fd) && s.fds[fd].position + Sum(ns) < TWO_32
    ensures var q := StopAt(s, fd, Sum(ns));
            s.fds[fd].position <= q <= MAX_FILE_SIZE && ReadAll(s, fd, ns) == ReadTo(s, fd, q)
    decreases ns
  {
    if ns == [] {
      ReadNothing(s, fd);
    } else {
      ReadAdvances(s, fd, ns[0]);
      var m := StopAt(s, fd, ns[0]);
      StopsAgree(s, fd, ns[0], Sum(ns[1..]));
      ReadAllAdvances(Moved(s, fd, m), fd, ns[1..]);
      ReadToTwice(s, fd, m, StopAt(s, fd, Sum(ns)));
    }
  }

  /** Reading in any chunking delivers the same bytes and leaves the same position as one read. */
  lemma ReadChunks(s: Session, fd: int, ns: seq<Word>)
    requires Positions(s) && Open(s.fds, fd) && s.fds[fd].position + Sum(ns) < TWO_32
    ensures ReadAll(s, fd, ns) == Read(s, fd, Sum(ns))
  {
    ReadAdvances(s, fd, Sum(ns));
    ReadAllAdvances(s, fd, ns);
  }

  /** Writes of the given chunks on one descriptor, with nothing in between: state and total. */
  ghost function WriteAll(s: Session, fd: int, chunks: seq<seq<Byte>>): (Session, int)
    requires Positions(s) && Open(s.fds, fd) && s.fds[fd].position + |Concat(chunks)| < TWO_32
    decreases chunks
  {
    if chunks == [] then (s, 0)
    else
      WriteAdvances(s, fd, chunks[0]);
      var (s1, c) := Write(s, fd, chunks[0]);
      var (s2, c') := WriteAll(s1, fd, chunks[1..]);
      (s2, c + c')
  }

  /** The session after `bytes` went into the file of `fd` at its position. */
  function Written(s: Session, fd: int, bytes: seq<Byte>): Session
    requires Open(s.fds, fd) && s.fds[fd].inode < MAX_INODES && s.fds[fd].position + |bytes| <= MAX_FILE_SIZE
  {
    var f := s.fds[fd];
    Moved(s.(t := s.t[f.inode := WriteAt(s.t[f.inode], f.position, bytes)]), fd, f.position + |bytes|)
  }

  /** The part of `bytes` that fits in `room`. */
  function Clip(bytes: seq<Byte>, room: nat): seq<Byte> {
    bytes[..Min(|bytes|, room)]
  }

  lemma ClipConcat(a: seq<Byte>, b: seq<Byte>, room: nat)
    ensures |Clip(a, room)| <= room
    ensures Clip(a, room) + Clip(b, room - |Clip(a, room)|) == Clip(a + b, room)
  {
  }

  function Room(s: Session, fd: int): int
    requires Open(s.fds, fd)
  {
    MAX_FILE_SIZE - s.fds[fd].position
  }

  /** A write stores the bytes that fit and moves the position behind them. */
  lemma WriteAdvances(s: Session, fd: int, bytes: seq<Byte>)
    requires Positions(s) && Open(s.fds, fd) && s.fds[fd].position + |bytes| < TWO_32
    ensures Room(s, fd) >= 0
    ensures var fit := Clip(bytes, Room(s, fd));
            Write(s, fd, bytes) == (Written(s, fd, fit), |fit|) && Positions(Written(s, fd, fit))
  {
    WriteStaysInside(s.fds[fd].position, |bytes|);
    WriteKeepsPositions(s, fd, bytes);
  }

  lemma WrittenTwice(s: Session, fd: int, a: seq<Byte>, b: seq<Byte>)
    requires Positions(s) && Open(s.fds, fd) && s.fds[fd].position + |a| + |b| <= MAX_FILE_SIZE
    ensures Written(Written(s, fd, a), fd, b) == Written(s, fd, a + b)
  {
    var f := s.fds[fd];
    var (i, p) := (s.t[f.inode], f.position);
    assert WriteAt(WriteAt(i, p, a), p + |a|, b) == WriteAt(i, p, a + b) by {
      assert Splice(Splice(i.data, p, a), p + |a|, b) == Splice(i.data, p, a + b);
    }
    var once, twice := Written(s, fd, a + b), Written(Written(s, fd, a), fd, b);
    assert once.t == twice.t && once.fds == twice.fds;
  }

  lemma WrittenNothing(s: Session, fd: int)
    requires Positions(s) && Open(s.fds, fd)
    ensures Written(s, fd, []) == s
  {
    var f := s.fds[fd];
    var i := s.t[f.inode];
    assert Splice(i.data, f.position, []) == i.data;
    assert WriteAt(i, f.position, []) == i;
    assert s.t[f.inode := i] == s.t;
    MovedTwice(s, fd, f.position, f.position);
  }

  lemma {:induction false} WriteAllAdvances(s: Session, fd: int, chunks: seq<seq<Byte>>)
    requires Positions(s) && Open(s.fds, fd) && s.fds[fd].position + |Concat(chunks)| < TWO_32
    ensures Room(s, fd) >= 0
    ensures var fit := Clip(Concat(chunks), Room(s, fd)); WriteAll(s, fd, chunks) == (Written(s, fd, fit), |fit|)
    decreases chunks
  {
    if chunks == [] {
      WrittenNothing(s, fd);
    } else {
      var first, rest := chunks[0], Concat(chunks[1..]);
      WriteAdvances(s, fd, first);
      WriteAllAdvances(Written(s, fd, Clip(first, Room(s, fd))), fd, chunks[1..]);
      WrittenClips(s, fd, first, rest);
    }
  }

  lemma WrittenClips(s: Session, fd: int, a: seq<Byte>, b: seq<Byte>)
    requires Positions(s) && Open(s.fds, fd) && Room(s, fd) >= 0
    ensures var s1 := Written(s, fd, Clip(a, Room(s, fd)));
            && Room(s1, fd) == Room(s, fd) - |Clip(a, Room(s, fd))| >= 0
            && Written(s1, fd, Clip(b, Room(s1, fd))) == Written(s, fd, Clip(a + b, Room(s, fd)))
            && |Clip(a, Room(s, fd))| + |Clip(b, Room(s1, fd))| == |Clip(a + b, Room(s, fd))|
  {
    ClipConcat(a, b, Room(s, fd));
    WrittenTwice(s, fd, Clip(a, Room(s, fd)), Clip(b, Room(s, fd) - |Clip(a, Room(s, fd))|));
  }

  /** Writing in any chunking leaves the same file, size and position as one write of the whole, the
      clamp at 8192 bytes included. */
  lemma WriteChunks(s: Session, fd: int, chunks: seq<seq<Byte>>)
    requires Positions(s) && Open(s.fds, fd) && s.fds[fd].position + |Concat(chunks)| < TWO_32
    ensures WriteAll(s, fd, chunks) == Write(s, fd, Concat(chunks))
  {
    WriteAdvances(s, fd, Concat(chunks));
    WriteAllAdvances(s, fd, chunks);
  }
}
