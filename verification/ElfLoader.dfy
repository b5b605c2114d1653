/** `fs/elf.c`: loading the segments of an executable from the file system into memory. */
module ElfLoader {
  import opened Machine
  import opened CString
  import opened InodeLayout
  import opened FileTree
  import opened Descriptors
  import opened VfsModel
  import opened Vfs

  const EHDR_SIZE: int := 52
  const PHDR_SIZE: int := 32
  const PT_LOAD: Word := 1
  const MAGIC: seq<Byte> := [0x7F, 0x45, 0x4C, 0x46]

  /** The fields of Elf32_Phdr the loader uses. */
  datatype Phdr = Phdr(ptype: Word, offset: Word, vaddr: Word, filesz: Word, memsz: Word) {
    /** Bytes of memory the segment occupies. */
    function Extent(): Word {
      if memsz > filesz then memsz else filesz
    }

    predicate Covers(a: nat) {
      ptype == PT_LOAD && vaddr <= a < vaddr + Extent()
    }
  }

  function ParsePhdr(b: seq<Byte>): Phdr
    requires |b| == PHDR_SIZE
  {
    Phdr(FromLe32(b[0..4]), FromLe32(b[4..8]), FromLe32(b[8..12]), FromLe32(b[16..20]), FromLe32(b[20..24]))
  }

  /** The fields of Elf32_Ehdr the loader uses. */
  datatype Ehdr = Ehdr(entry: Word, phoff: Word, phentsize: Word, phnum: Word)

  function ParseEhdr(b: seq<Byte>): Ehdr
    requires |b| == EHDR_SIZE
  {
    Ehdr(FromLe32(b[24..28]), FromLe32(b[28..32]), FromLe16(b[42..44]), FromLe16(b[44..46]))
  }

  /** File offset of program header `i`, in 32-bit arithmetic. */
  function PhdrOffset(h: Ehdr, i: nat): Word {
    (h.phoff + i * h.phentsize) % TWO_32
  }

  /** Where the program table says a header is, and the header if it lies in the file as a whole. */
  datatype Entry = Cut(at: Word) | Entry(at: Word, p: Phdr)

  function EntryOf(file: seq<Byte>, at: Word): Entry {
    if at + PHDR_SIZE <= |file| then Entry(at, ParsePhdr(file[at..at + PHDR_SIZE])) else Cut(at)
  }

  /** The program header table. */
  function Entries(file: seq<Byte>, h: Ehdr): seq<Entry> {
    seq(h.phnum, i requires 0 <= i => EntryOf(file, PhdrOffset(h, i)))
  }

  predicate HasSegment(file: seq<Byte>, p: Phdr) {
    p.offset + p.filesz <= |file|
  }

  /** The bytes a segment puts into memory: its file bytes, then zeros. */
  function SegmentBytes(file: seq<Byte>, p: Phdr): (b: seq<Byte>)
    requires HasSegment(file, p)
    ensures |b| == p.Extent()
  {
    file[p.offset..p.offset + p.filesz] + Zeros(p.Extent() - p.filesz)
  }

  /** An entry that can be loaded in full. */
  predicate Loads(file: seq<Byte>, e: Entry) {
    e.Entry? && (e.p.ptype == PT_LOAD ==> HasSegment(file, e.p))
  }

  /** What the loader relies on: offsets within the file, no wrapping lengths, and segments inside memory of
      the given size, which 32-bit addresses can reach. Nothing is asked of entries behind one that stops
      the loader. */
  predicate Loadable(file: seq<Byte>, es: seq<Entry>, memSize: nat) {
    && memSize <= TWO_32
    && (es == [] ||
        var e := es[0];
        && e.at <= |file|
        && (e.Entry? && e.p.ptype == PT_LOAD ==>
              && e.p.offset <= |file| && e.p.offset + e.p.filesz < TWO_32
              && e.p.vaddr + (if HasSegment(file, e.p) then e.p.Extent() else |file| - e.p.offset) <= memSize)
        && (Loads(file, e) ==> Loadable(file, es[1..], memSize)))
  }

  /** The memory after an entry that can be loaded in full. */
  function Placed(file: seq<Byte>, mem: seq<Byte>, e: Entry): (m: seq<Byte>)
    requires Loads(file, e) && (e.p.ptype == PT_LOAD ==> e.p.vaddr + e.p.Extent() <= |mem|)
    ensures |m| == |mem|
  {
    if e.p.ptype == PT_LOAD then Splice(mem, e.p.vaddr, SegmentBytes(file, e.p)) else mem
  }

  /** The loop over the program headers: the answer and the memory. */
  function Load(file: seq<Byte>, es: seq<Entry>, mem: seq<Byte>): (r: (int, seq<Byte>))
    requires Loadable(file, es, |mem|)
    ensures |r.1| == |mem|
    decreases es
  {
    if es == [] then (0, mem)
    else if Loads(file, es[0]) then Load(file, es[1..], Placed(file, mem, es[0]))
    else if es[0].Cut? then (-1, mem)
    else (-1, Splice(mem, es[0].p.vaddr, file[es[0].p.offset..]))
  }

  predicate HasHeader(file: seq<Byte>) {
    |file| >= EHDR_SIZE && file[..4] == MAGIC
  }

  // ----- what loading means

  /** The loader succeeds exactly when every header entry and every loadable segment lies in the file. */
  lemma {:induction false} LoadSucceedsIff(file: seq<Byte>, es: seq<Entry>, mem: seq<Byte>)
    requires Loadable(file, es, |mem|)
    ensures Load(file, es, mem).0 == if (forall e :: e in es ==> Loads(file, e)) then 0 else -1
    decreases es
  {
    if es != [] {
      if Loads(file, es[0]) {
        LoadSucceedsIff(file, es[1..], Placed(file, mem, es[0]));
        assert es == [es[0]] + es[1..];
      }
    }
  }

  /** The byte segment `p` puts at address `a`. */
  function SegmentByte(file: seq<Byte>, p: Phdr, a: nat): Byte
    requires p.Covers(a) && HasSegment(file, p)
  {
    if a - p.vaddr < p.filesz then file[p.offset + (a - p.vaddr)] else 0
  }

  predicate Covers(e: Entry, a: nat) {
    e.Entry? && e.p.Covers(a)
  }

  lemma PlacedAt(file: seq<Byte>, mem: seq<Byte>, e: Entry, a: nat)
    requires Loads(file, e) && (e.p.ptype == PT_LOAD ==> e.p.vaddr + e.p.Extent() <= |mem|) && a < |mem|
    ensures Placed(file, mem, e)[a] == if Covers(e, a) then SegmentByte(file, e.p, a) else mem[a]
  {
  }

  /** A complete load leaves an address that no segment covers as it was. */
  lemma {:induction false} UntouchedKept(file: seq<Byte>, es: seq<Entry>, mem: seq<Byte>, a: nat)
    requires Loadable(file, es, |mem|) && Load(file, es, mem).0 == 0 && a < |mem|
    requires forall e :: e in es ==> !Covers(e, a)
    ensures Load(file, es, mem).1[a] == mem[a]
    decreases es
  {
    if es != [] {
      PlacedAt(file, mem, es[0], a);
      UntouchedKept(file, es[1..], Placed(file, mem, es[0]), a);
    }
  }

  /** After a complete load an address holds the byte of the last segment that covers it. */
  lemma {:induction false} LastSegmentWins(file: seq<Byte>, es: seq<Entry>, mem: seq<Byte>, a: nat, k: nat)
    requires Loadable(file, es, |mem|) && Load(file, es, mem).0 == 0 && a < |mem|
    requires k < |es| && Covers(es[k], a) && forall e :: e in es[k + 1..] ==> !Covers(e, a)
    ensures Loads(file, es[k]) && Load(file, es, mem).1[a] == SegmentByte(file, es[k].p, a)
    decreases es
  {
    PlacedAt(file, mem, es[0], a);
    if k == 0 {
      UntouchedKept(file, es[1..], Placed(file, mem, es[0]), a);
    } else {
      assert es[1..][k..] == es[k + 1..];
      LastSegmentWins(file, es[1..], Placed(file, mem, es[0]), a, k - 1);
    }
  }

  /** The last entry whose segment covers address `a`, or -1. */
  function LastCovering(es: seq<Entry>, a: nat): (k: int)
    ensures -1 <= k < |es| && (k >= 0 ==> Covers(es[k], a))
    ensures forall e :: e in es[k + 1..] ==> !Covers(e, a)
  {
    if es == [] then -1
    else if Covers(es[|es| - 1], a) then |es| - 1
    else LastCovering(es[..|es| - 1], a)
  }

  ghost predicate AllLoad(file: seq<Byte>, es: seq<Entry>) {
    forall e :: e in es ==> Loads(file, e)
  }

  /** The byte at `a` of the memory image: that of the last segment covering it, or the old byte. */
  function ImageByte(file: seq<Byte>, es: seq<Entry>, before: seq<Byte>, a: nat): Byte
    requires AllLoad(file, es) && a < |before|
  {
    var k := LastCovering(es, a);
    if k < 0 then before[a] else
      assert es[k] in es;
      SegmentByte(file, es[k].p, a)
  }

  ghost predicate HoldsImage(file: seq<Byte>, es: seq<Entry>, before: seq<Byte>, after: seq<Byte>)
    requires AllLoad(file, es)
  {
    |after| == |before| && forall a :: 0 <= a < |after| ==> after[a] == ImageByte(file, es, before, a)
  }

  lemma LoadedByte(file: seq<Byte>, es: seq<Entry>, mem: seq<Byte>, a: nat)
    requires Loadable(file, es, |mem|) && Load(file, es, mem).0 == 0 && AllLoad(file, es) && a < |mem|
    ensures Load(file, es, mem).1[a] == ImageByte(file, es, mem, a)
  {
    var k := LastCovering(es, a);
    if k < 0 {
      assert es[k + 1..] == es;
      UntouchedKept(file, es, mem, a);
    } else {
      LastSegmentWins(file, es, mem, a, k);
    }
  }

  /** A complete load leaves the memory image: at each address the byte of the last segment that covers it,
      and the old byte where none does. */
  lemma LoadedImage(file: seq<Byte>, es: seq<Entry>, mem: seq<Byte>)
    requires Loadable(file, es, |mem|) && Load(file, es, mem).0 == 0
    ensures AllLoad(file, es) && HoldsImage(file, es, mem, Load(file, es, mem).1)
  {
    LoadSucceedsIff(file, es, mem);
    var after := Load(file, es, mem).1;
    forall a | 0 <= a < |after| ensures after[a] == ImageByte(file, es, mem, a) {
      LoadedByte(file, es, mem, a);
    }
  }

  /** No two segments share an address. */
  ghost predicate Disjoint(es: seq<Entry>) {
    forall j, k, a: nat :: 0 <= j < k < |es| && Covers(es[j], a) ==> !Covers(es[k], a)
  }

  /** With disjoint segments the memory is the process image: every segment's file bytes, and zeros up to
      its memory size, in their places (and everything else as before, by `UntouchedKept`). */
  lemma ProcessImage(file: seq<Byte>, es: seq<Entry>, mem: seq<Byte>, a: nat, k: nat)
    requires Loadable(file, es, |mem|) && Load(file, es, mem).0 == 0 && a < |mem|
    requires Disjoint(es) && k < |es| && Covers(es[k], a)
    ensures Loads(file, es[k]) && Load(file, es, mem).1[a] == SegmentByte(file, es[k].p, a)
  {
    NoneLater(es, a, k);
    LastSegmentWins(file, es, mem, a, k);
  }

  lemma NoneLater(es: seq<Entry>, a: nat, k: nat)
    requires Disjoint(es) && k < |es| && Covers(es[k], a)
    ensures forall e :: e in es[k + 1..] ==> !Covers(e, a)
  {
    forall e | e in es[k + 1..] ensures !Covers(e, a) {
      var j :| k < j < |es| && es[j] == e;
    }
  }

  // ----- the loader

  /** What a caller of `vfs_read_at` reads from: the bytes of the named file, if it can be opened. */
  datatype Source = NoFile | File(bytes: seq<Byte>)

  function SourceOf(fs: Fs, n: seq<Byte>): Source {
    var i := Find(fs.s.t, fs.cwd, n);
    if IsFile(fs.s.t, i) && FreeFd(fs.s.fds, 0) >= 0 then File(Content(fs.s.t[i])) else NoFile
  }

  lemma SameFlagsSameSource(fs: Fs, fs': Fs, n: seq<Byte>)
    requires fs' == fs.(s := fs.s.(fds := fs'.s.fds))
    requires forall k :: 0 <= k < MAX_OPEN_FILES ==> fs'.s.fds[k].inUse == fs.s.fds[k].inUse
    ensures SourceOf(fs', n) == SourceOf(fs, n)
  {
    FreeFdIsFirst(fs.s.fds, 0);
    FreeFdIsFirst(fs'.s.fds, 0);
  }

  /** The file's size fits its data area. */
  predicate SizeFits(fs: Fs, n: seq<Byte>) {
    var i := Find(fs.s.t, fs.cwd, n);
    IsFile(fs.s.t, i) ==> fs.s.t[i].size <= MAX_FILE_SIZE
  }

  /** The bytes `vfs_read_at` delivers. */
  function Piece(file: seq<Byte>, size: nat, offset: nat): seq<Byte>
    requires offset <= |file|
  {
    file[offset..Min(offset + size, |file|)]
  }

  /** Reading an open file's source: the bytes in range, and the source stays what it was. */
  lemma ReadSource(fs: Fs, n: seq<Byte>, size: Word, offset: Word)
    requires SizeFits(fs, n) && SourceOf(fs, n).File?
    requires offset <= |SourceOf(fs, n).bytes| && offset + size < TWO_32
    ensures CanReadAt(fs, n, size, offset)
    ensures var (fs', count, bytes) := ReadAt(fs, n, size, offset);
            && bytes == Piece(SourceOf(fs, n).bytes, size, offset) && count == |bytes|
            && SourceOf(fs', n) == SourceOf(fs, n) && SizeFits(fs', n)
            && fs'.s.t == fs.s.t && fs'.cwd == fs.cwd
  {
    ReadAtDelivers(fs, n, size, offset);
    SameFlagsSameSource(fs, ReadAt(fs, n, size, offset).0, n);
  }

  lemma ReadNoSource(fs: Fs, n: seq<Byte>, size: Word)
    requires SizeFits(fs, n) && SourceOf(fs, n).NoFile?
    ensures CanReadAt(fs, n, size, 0) && ReadAt(fs, n, size, 0) == (fs, -1, [])
  {
  }

  /** The source is a file that starts with an ELF header. */
  predicate Starts(src: Source) {
    src.File? && HasHeader(src.bytes)
  }

  function HeaderOf(src: Source): Ehdr
    requires Starts(src)
  {
    ParseEhdr(src.bytes[..EHDR_SIZE])
  }

  /** What the caller of `elf_load` guarantees for a file that starts with an ELF header. */
  predicate SafeToLoad(src: Source, memSize: nat) {
    Starts(src) ==> Loadable(src.bytes, Entries(src.bytes, HeaderOf(src)), memSize)
  }

  /** The answer, the entry point and the memory after `elf_load`. */
  function Loaded(src: Source, entry: Word, mem: seq<Byte>): (int, Word, seq<Byte>)
    requires SafeToLoad(src, |mem|)
  {
    if !Starts(src) then (-1, entry, mem)
    else
      var (r, m) := Load(src.bytes, Entries(src.bytes, HeaderOf(src)), mem);
      (r, HeaderOf(src).entry, m)
  }

  /** `elf_load` answers 0 exactly when the file and its header, the magic, every program header and every
      loadable segment could be read in full. */
  lemma ElfLoadSucceedsIff(src: Source, entry: Word, mem: seq<Byte>)
    requires SafeToLoad(src, |mem|)
    ensures Loaded(src, entry, mem).0 == 0 <==>
      Starts(src) && forall e :: e in Entries(src.bytes, HeaderOf(src)) ==> Loads(src.bytes, e)
  {
    if Starts(src) {
      LoadSucceedsIff(src.bytes, Entries(src.bytes, HeaderOf(src)), mem);
    }
  }

  /** The file system is ready and the path leads to the open-able file `src`. */
  ghost predicate Serves(fs: FileSystem, path: seq<Byte>, src: Source)
    reads fs, fs.inodes, fs.files, fs.files.fds, fs.disk
  {
    && fs.Ready() && 0 in path
    && SizeFits(fs.State(), UpToNul(path)) && SourceOf(fs.State(), UpToNul(path)) == src
  }

  /** A buffer that is no part of the file system. */
  predicate Apart(fs: FileSystem, buffer: array<Byte>) {
    buffer as object != fs.inodes && buffer as object != fs.disk && buffer as object != fs.files.fds
  }

  /** `vfs_read_at` on an open file, seen as reading from a source that stays the same. */
  method ReadPiece(fs: FileSystem, path: seq<Byte>, buffer: array<Byte>, off: nat, size: Word, offset: Word,
                   ghost file: seq<Byte>) returns (n: int)
    requires Serves(fs, path, File(file)) && Apart(fs, buffer)
    requires offset <= |file| && offset + size < TWO_32 && off + |Piece(file, size, offset)| <= buffer.Length
    modifies fs.files.fds, buffer
    ensures Serves(fs, path, File(file))
    ensures n == |Piece(file, size, offset)| && buffer[..] == Splice(old(buffer[..]), off, Piece(file, size, offset))
  {
    ReadSource(fs.State(), UpToNul(path), size, offset);
    n := fs.VfsReadAt(path, buffer, off, size, offset);
  }

  /** The zeros behind the file bytes of a segment. */
  method ZeroFill(mem: array<Byte>, p: Phdr, ghost file: seq<Byte>, ghost before: seq<Byte>)
    requires HasSegment(file, p) && p.vaddr + p.Extent() <= mem.Length == |before|
    requires mem[..] == Splice(before, p.vaddr, file[p.offset..p.offset + p.filesz])
    modifies mem
    ensures mem[..] == Splice(before, p.vaddr, SegmentBytes(file, p))
  {
    if p.memsz > p.filesz {
      MemSet(mem, p.vaddr + p.filesz, 0, p.memsz - p.filesz);
    }
  }

  /** One loadable segment: file bytes, then zeros. A segment cut off by the end of the file fails. */
  method LoadSegment(fs: FileSystem, path: seq<Byte>, mem: array<Byte>, p: Phdr, ghost file: seq<Byte>)
    returns (ok: bool)
    requires Serves(fs, path, File(file)) && Apart(fs, mem)
    requires p.offset <= |file| && p.offset + p.filesz < TWO_32
    requires p.vaddr + (if HasSegment(file, p) then p.Extent() else |file| - p.offset) <= mem.Length <= TWO_32
    modifies fs.files.fds, mem
    ensures Serves(fs, path, File(file))
    ensures ok == HasSegment(file, p)
    ensures mem[..] == Splice(old(mem[..]), p.vaddr, if ok then SegmentBytes(file, p) else file[p.offset..])
  {
    ghost var before := mem[..];
    var n := ReadPiece(fs, path, mem, p.vaddr, p.filesz, p.offset, file);
    if n < 0 || n != p.filesz {
      assert Piece(file, p.filesz, p.offset) == file[p.offset..];
      return false;
    }
    ZeroFill(mem, p, file, before);
    return true;
  }

  /** Read the program header at `at`. */
  method ReadPhdr(fs: FileSystem, path: seq<Byte>, at: Word, ghost file: seq<Byte>) returns (n: int, p: Phdr)
    requires Serves(fs, path, File(file)) && at <= |file| && |file| <= MAX_FILE_SIZE
    modifies fs.files.fds
    ensures Serves(fs, path, File(file))
    ensures n == PHDR_SIZE <==> at + PHDR_SIZE <= |file|
    ensures n == PHDR_SIZE ==> p == ParsePhdr(file[at..at + PHDR_SIZE])
  {
    var phdr := new Byte[PHDR_SIZE](_ => 0);
    n := ReadPiece(fs, path, phdr, 0, PHDR_SIZE, at, file);
    assert n == PHDR_SIZE ==> phdr[..] == file[at..at + PHDR_SIZE];
    p := ParsePhdr(phdr[..]);
  }

  /** Loading a table of one entry. */
  lemma LoadSingle(file: seq<Byte>, e: Entry, mem: seq<Byte>)
    requires Loadable(file, [e], |mem|)
    ensures Loads(file, e) ==> Load(file, [e], mem) == (0, Placed(file, mem, e))
    ensures e.Cut? ==> Load(file, [e], mem) == (-1, mem)
    ensures e.Entry? && !Loads(file, e) ==> Load(file, [e], mem) == (-1, Splice(mem, e.p.vaddr, file[e.p.offset..]))
  {
  }

  /** One round of the loop: read the header at `at`, and load its segment if it has one. */
  method LoadEntry(fs: FileSystem, path: seq<Byte>, mem: array<Byte>, ghost e: Entry, at: Word, ghost file: seq<Byte>)
    returns (ok: bool)
    requires Serves(fs, path, File(file)) && Apart(fs, mem)
    requires Loadable(file, [e], mem.Length)
    requires e == EntryOf(file, at)
    modifies fs.files.fds, mem
    ensures Serves(fs, path, File(file))
    ensures (if ok then 0 else -1, mem[..]) == Load(file, [e], old(mem[..]))
  {
    LoadSingle(file, e, mem[..]);
    var n, p := ReadPhdr(fs, path, at, file);
    if n != PHDR_SIZE { return false; }
    if p.ptype == PT_LOAD {
      ok := LoadSegment(fs, path, mem, p, file);
    } else {
      ok := true;
    }
  }

  /** The loop over the program headers. */
  method LoadSegments(fs: FileSystem, path: seq<Byte>, mem: array<Byte>, h: Ehdr, ghost file: seq<Byte>)
    returns (r: int)
    requires Serves(fs, path, File(file)) && Apart(fs, mem) && Loadable(file, Entries(file, h), mem.Length)
    modifies fs.files.fds, mem
    ensures Serves(fs, path, File(file))
    ensures (r, mem[..]) == Load(file, Entries(file, h), old(mem[..]))
  {
    ghost var es := Entries(file, h);
    var i := 0;
    while i < h.phnum
      invariant 0 <= i <= h.phnum
      invariant Serves(fs, path, File(file))
      invariant Loadable(file, es[i..], mem.Length)
      invariant Load(file, es[i..], mem[..]) == Load(file, es, old(mem[..]))
    {
      LoadOne(file, es[i..], mem[..]);
      assert es[i..][1..] == es[i + 1..];
      var ok := LoadEntry(fs, path, mem, es[i], PhdrOffset(h, i), file);
      if !ok { return -1; }
      i := i + 1;
    }
    return 0;
  }

  /** Loading entry by entry. */
  lemma LoadOne(file: seq<Byte>, es: seq<Entry>, mem: seq<Byte>)
    requires es != [] && Loadable(file, es, |mem|)
    ensures Loadable(file, [es[0]], |mem|)
    ensures var (r, m) := Load(file, [es[0]], mem);
            && (r == 0 || r == -1)
            && (r == 0 ==> Loadable(file, es[1..], |mem|) && Load(file, es, mem) == Load(file, es[1..], m))
            && (r == -1 ==> Load(file, es, mem) == (-1, m))
  {
    assert [es[0]][1..] == [];
  }

  /** Read the file header; -1 when there is no file to open. */
  method ReadEhdr(fs: FileSystem, path: seq<Byte>, header: array<Byte>, ghost src: Source) returns (n: int)
    requires Serves(fs, path, src) && Apart(fs, header) && header.Length == EHDR_SIZE
    modifies fs.files.fds, header
    ensures Serves(fs, path, src)
    ensures n == EHDR_SIZE <==> src.File? && |src.bytes| >= EHDR_SIZE
    ensures n == EHDR_SIZE ==> header[..] == src.bytes[..EHDR_SIZE]
  {
    if src.NoFile? {
      ReadNoSource(fs.State(), UpToNul(path), EHDR_SIZE);
    } else {
      ReadSource(fs.State(), UpToNul(path), EHDR_SIZE, 0);
    }
    n := fs.VfsReadAt(path, header, 0, EHDR_SIZE, 0);
  }

  method HasMagic(header: array<Byte>) returns (ok: bool)
    requires header.Length == EHDR_SIZE
    ensures ok == (header[..4] == MAGIC)
  {
    ok := !(header[0] != 0x7F || header[1] != 0x45 || header[2] != 0x4C || header[3] != 0x46);
  }

  method ElfLoad(fs: FileSystem, path: seq<Byte>, mem: array<Byte>, entryPoint: Word, ghost src: Source)
    returns (r: int, entry: Word)
    requires Serves(fs, path, src) && Apart(fs, mem) && SafeToLoad(src, mem.Length)
    modifies fs.files.fds, mem
    ensures Serves(fs, path, src)
    ensures (r, entry, mem[..]) == Loaded(src, entryPoint, old(mem[..]))
  {
    var header := new Byte[EHDR_SIZE](_ => 0);
    var n := ReadEhdr(fs, path, header, src);
    if n != EHDR_SIZE { return -1, entryPoint; }
    assert header[..4] == src.bytes[..4];
    var ok := HasMagic(header);
    if !ok { return -1, entryPoint; }
    var h := ParseEhdr(header[..]);
    r := LoadSegments(fs, path, mem, h, src.bytes);
    return r, h.entry;
  }
}
