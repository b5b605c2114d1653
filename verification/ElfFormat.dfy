/** Executables laid out field by field as `fs/elf.h` declares, and what the loader makes of them. */
module ElfFormat {
  import opened Machine
  import opened ElfLoader

  type Half = x: int | 0 <= x < 0x1_0000

  /** Elf32_Ehdr. */
  datatype FileHeader = FileHeader(
    ident: seq<Byte>, etype: Half, machine: Half, version: Word, entry: Word, phoff: Word, shoff: Word, flags: Word,
    ehsize: Half, phentsize: Half, phnum: Half, shentsize: Half, shnum: Half, shstrndx: Half)

  /** Elf32_Phdr. */
  datatype ProgramHeader = ProgramHeader(
    ptype: Word, offset: Word, vaddr: Word, paddr: Word, filesz: Word, memsz: Word, flags: Word, align: Word)
  {
    /** A loadable segment puts a byte at address `a`. */
    predicate Occupies(a: nat) {
      ptype == 1 && vaddr <= a && (a - vaddr < filesz || a - vaddr < memsz)
    }

    /** A loadable segment lies in a file and in a memory of the given sizes. */
    predicate Fits(fileSize: nat, memSize: nat) {
      ptype == 1 ==> offset + filesz <= fileSize && vaddr + filesz <= memSize && vaddr + memsz <= memSize
    }
  }

  function FileHeaderBytes(h: FileHeader): (b: seq<Byte>)
    requires |h.ident| == 16
    ensures |b| == 52
  {
    h.ident + Le16(h.etype) + Le16(h.machine) + Le32(h.version) + Le32(h.entry) + Le32(h.phoff) + Le32(h.shoff)
    + Le32(h.flags) + Le16(h.ehsize) + Le16(h.phentsize) + Le16(h.phnum) + Le16(h.shentsize) + Le16(h.shnum)
    + Le16(h.shstrndx)
  }

  function ProgramHeaderBytes(p: ProgramHeader): (b: seq<Byte>)
    ensures |b| == 32
  {
    Le32(p.ptype) + Le32(p.offset) + Le32(p.vaddr) + Le32(p.paddr)
    + Le32(p.filesz) + Le32(p.memsz) + Le32(p.flags) + Le32(p.align)
  }

  /** File offset of program header `i`: from e_phoff on in steps of e_phentsize. */
  function TableAt(h: FileHeader, i: nat): nat {
    if i == 0 then h.phoff else TableAt(h, i - 1) + h.phentsize
  }

  /** The file starts with the header `h`, ELF's four bytes first, and has the program headers `ps` where `h`
      says; anything may stand elsewhere. */
  predicate LaidOut(file: seq<Byte>, h: FileHeader, ps: seq<ProgramHeader>) {
    && 52 <= |file| < TWO_32
    && |h.ident| == 16 && h.ident[..4] == [0x7F, 0x45, 0x4C, 0x46] && h.phnum == |ps|
    && file[..52] == FileHeaderBytes(h)
    && forall i :: 0 <= i < |ps| ==>
         TableAt(h, i) + 32 <= |file| && file[TableAt(h, i)..TableAt(h, i) + 32] == ProgramHeaderBytes(ps[i])
  }

  predicate AllFit(ps: seq<ProgramHeader>, fileSize: nat, memSize: nat) {
    forall i :: 0 <= i < |ps| ==> ps[i].Fits(fileSize, memSize)
  }

  // ----- what the loader reads

  /** The fields of the program header the loader keeps. */
  function Kept(p: ProgramHeader): Phdr {
    Phdr(p.ptype, p.offset, p.vaddr, p.filesz, p.memsz)
  }

  lemma ReadsFileHeader(h: FileHeader)
    requires |h.ident| == 16
    ensures ParseEhdr(FileHeaderBytes(h)) == Ehdr(h.entry, h.phoff, h.phentsize, h.phnum)
    ensures FileHeaderBytes(h)[..4] == h.ident[..4]
  {
    var b := FileHeaderBytes(h);
    assert b[24..28] == Le32(h.entry) && b[28..32] == Le32(h.phoff);
    assert b[42..44] == Le16(h.phentsize) && b[44..46] == Le16(h.phnum);
    Le32RoundTrip(h.entry);
    Le32RoundTrip(h.phoff);
    Le16RoundTrip(h.phentsize);
    Le16RoundTrip(h.phnum);
  }

  lemma ReadsProgramHeader(p: ProgramHeader)
    ensures ParsePhdr(ProgramHeaderBytes(p)) == Kept(p)
  {
    var b := ProgramHeaderBytes(p);
    assert b[0..4] == Le32(p.ptype) && b[4..8] == Le32(p.offset) && b[8..12] == Le32(p.vaddr);
    assert b[16..20] == Le32(p.filesz) && b[20..24] == Le32(p.memsz);
    Le32RoundTrip(p.ptype);
    Le32RoundTrip(p.offset);
    Le32RoundTrip(p.vaddr);
    Le32RoundTrip(p.filesz);
    Le32RoundTrip(p.memsz);
  }

  lemma ReadsHeader(file: seq<Byte>, h: FileHeader, ps: seq<ProgramHeader>)
    requires LaidOut(file, h, ps)
    ensures Starts(File(file)) && HeaderOf(File(file)) == Ehdr(h.entry, h.phoff, h.phentsize, h.phnum)
  {
    ReadsFileHeader(h);
    assert file[..4] == file[..52][..4];
  }

  lemma {:induction false} TableProduct(h: FileHeader, i: nat)
    ensures TableAt(h, i) == h.phoff + i * h.phentsize
  {
    if i > 0 {
      TableProduct(h, i - 1);
      assert i * h.phentsize == (i - 1) * h.phentsize + h.phentsize;
    }
  }

  lemma EntryAt(file: seq<Byte>, at: nat, p: ProgramHeader)
    requires at + 32 <= |file| < TWO_32 && file[at..at + 32] == ProgramHeaderBytes(p)
    ensures EntryOf(file, at % TWO_32) == Entry(at, Kept(p))
  {
    ReadsProgramHeader(p);
  }

  lemma ReadsEntry(file: seq<Byte>, h: FileHeader, ps: seq<ProgramHeader>, i: nat)
    requires LaidOut(file, h, ps) && i < |ps|
    ensures EntryOf(file, PhdrOffset(Ehdr(h.entry, h.phoff, h.phentsize, h.phnum), i)) == Entry(TableAt(h, i), Kept(ps[i]))
  {
    TableProduct(h, i);
    assert PhdrOffset(Ehdr(h.entry, h.phoff, h.phentsize, h.phnum), i) == TableAt(h, i) % TWO_32;
    EntryAt(file, TableAt(h, i), ps[i]);
  }

  /** The loader's program header table is the one the file was laid out with. */
  lemma ReadsTable(file: seq<Byte>, h: FileHeader, ps: seq<ProgramHeader>)
    requires LaidOut(file, h, ps)
    ensures Starts(File(file)) && HeaderOf(File(file)).entry == h.entry
    ensures var es := Entries(file, HeaderOf(File(file)));
            |es| == |ps| && forall i :: 0 <= i < |ps| ==> es[i] == Entry(TableAt(h, i), Kept(ps[i])) && es[i].at <= |file|
  {
    ReadsHeader(file, h, ps);
    forall i | 0 <= i < |ps|
      ensures EntryOf(file, PhdrOffset(HeaderOf(File(file)), i)) == Entry(TableAt(h, i), Kept(ps[i]))
    {
      ReadsEntry(file, h, ps, i);
    }
  }

  lemma {:induction false} LoadableIfFits(file: seq<Byte>, es: seq<Entry>, memSize: nat)
    requires |file| < TWO_32 && memSize <= TWO_32
    requires forall e :: e in es ==>
      Loads(file, e) && e.at <= |file| && (e.p.ptype == PT_LOAD ==> e.p.vaddr + e.p.Extent() <= memSize)
    ensures Loadable(file, es, memSize)
    decreases es
  {
    if es != [] {
      assert es[0] in es && forall e :: e in es[1..] ==> e in es;
      LoadableIfFits(file, es[1..], memSize);
    }
  }

  // ----- what loading does

  /** Such a file is loaded when its segments lie in it and in memory: the answer is 0 and the entry point the
      one of the file header. */
  lemma ExecutableLoads(file: seq<Byte>, h: FileHeader, ps: seq<ProgramHeader>, entry: Word, mem: seq<Byte>)
    requires LaidOut(file, h, ps) && |mem| <= TWO_32 && AllFit(ps, |file|, |mem|)
    ensures SafeToLoad(File(file), |mem|)
    ensures var (r, start, after) := Loaded(File(file), entry, mem); r == 0 && start == h.entry && |after| == |mem|
  {
    ReadsTable(file, h, ps);
    var es := Entries(file, HeaderOf(File(file)));
    forall e | e in es
      ensures Loads(file, e) && e.at <= |file| && (e.p.ptype == PT_LOAD ==> e.p.vaddr + e.p.Extent() <= |mem|)
    {
      var i :| 0 <= i < |es| && es[i] == e;
      assert ps[i].Fits(|file|, |mem|);
    }
    LoadableIfFits(file, es, |mem|);
    LoadSucceedsIff(file, es, mem);
  }

  /** The byte a segment puts at `a`: of the file from p_offset on, or zero behind p_filesz. */
  function ByteFor(file: seq<Byte>, p: ProgramHeader, a: nat): Byte
    requires p.Occupies(a) && p.offset + p.filesz <= |file|
  {
    if a - p.vaddr < p.filesz then file[p.offset + (a - p.vaddr)] else 0
  }

  /** And every address holds the byte of the last segment `i` that puts one there; where there is none (`i` is
      -1), what it held before. */
  lemma ExecutableMemory(file: seq<Byte>, h: FileHeader, ps: seq<ProgramHeader>, entry: Word, mem: seq<Byte>, a: nat, i: int)
    requires LaidOut(file, h, ps) && a < |mem| <= TWO_32 && AllFit(ps, |file|, |mem|)
    requires -1 <= i < |ps| && (i >= 0 ==> ps[i].Occupies(a)) && forall j :: i < j < |ps| ==> !ps[j].Occupies(a)
    ensures SafeToLoad(File(file), |mem|)
    ensures Loaded(File(file), entry, mem).2[a] == if i < 0 then mem[a] else ByteFor(file, ps[i], a)
  {
    ExecutableLoads(file, h, ps, entry, mem);
    ReadsTable(file, h, ps);
    TableMemory(file, Entries(file, HeaderOf(File(file))), ps, mem, a, i);
  }

  lemma TableMemory(file: seq<Byte>, es: seq<Entry>, ps: seq<ProgramHeader>, mem: seq<Byte>, a: nat, i: int)
    requires Loadable(file, es, |mem|) && Load(file, es, mem).0 == 0 && a < |mem|
    requires |es| == |ps| && forall k :: 0 <= k < |ps| ==> es[k].Entry? && es[k].p == Kept(ps[k])
    requires -1 <= i < |ps| && (i >= 0 ==> ps[i].Occupies(a) && ps[i].offset + ps[i].filesz <= |file|)
    requires forall j :: i < j < |ps| ==> !ps[j].Occupies(a)
    ensures Load(file, es, mem).1[a] == if i < 0 then mem[a] else ByteFor(file, ps[i], a)
  {
    NoneCovers(es, ps, a, i + 1);
    if i >= 0 { CoversWhatItOccupies(ps[i], a); }
    if i < 0 {
      assert es[0..] == es;
      UntouchedKept(file, es, mem, a);
    } else {
      LastSegmentWins(file, es, mem, a, i);
      SameByte(file, ps[i], a);
    }
  }

  lemma NoneCovers(es: seq<Entry>, ps: seq<ProgramHeader>, a: nat, k: nat)
    requires |es| == |ps| && k <= |es| && forall j :: k <= j < |ps| ==> es[j].Entry? && es[j].p == Kept(ps[j])
    requires forall j :: k <= j < |ps| ==> !ps[j].Occupies(a)
    ensures forall e :: e in es[k..] ==> !ElfLoader.Covers(e, a)
  {
    forall e | e in es[k..] ensures !ElfLoader.Covers(e, a) {
      var j :| k <= j < |es| && es[j] == e;
      CoversWhatItOccupies(ps[j], a);
    }
  }

  lemma SameByte(file: seq<Byte>, p: ProgramHeader, a: nat)
    requires p.Occupies(a) && p.offset + p.filesz <= |file|
    ensures Kept(p).Covers(a) && SegmentByte(file, Kept(p), a) == ByteFor(file, p, a)
  {
  }

  lemma CoversWhatItOccupies(p: ProgramHeader, a: nat)
    ensures Kept(p).Covers(a) <==> p.Occupies(a)
  {
  }

  /** Whatever the caller's memory is safe for, the answer is 0 if and only if every loadable segment lies in the
      file, and the entry point is set in both cases. */
  lemma ExecutableAnswer(file: seq<Byte>, h: FileHeader, ps: seq<ProgramHeader>, entry: Word, mem: seq<Byte>)
    requires LaidOut(file, h, ps) && SafeToLoad(File(file), |mem|)
    ensures var (r, start, _) := Loaded(File(file), entry, mem);
            && start == h.entry
            && r == if forall p :: p in ps && p.ptype == 1 ==> p.offset + p.filesz <= |file| then 0 else -1
  {
    ReadsTable(file, h, ps);
    var es := Entries(file, HeaderOf(File(file)));
    LoadSucceedsIff(file, es, mem);
    AllInFile(file, es, ps);
  }

  lemma AllInFile(file: seq<Byte>, es: seq<Entry>, ps: seq<ProgramHeader>)
    requires |es| == |ps| && forall k :: 0 <= k < |ps| ==> es[k].Entry? && es[k].p == Kept(ps[k])
    ensures (forall e :: e in es ==> Loads(file, e)) <==>
      forall p :: p in ps && p.ptype == 1 ==> p.offset + p.filesz <= |file|
  {
    if forall e :: e in es ==> Loads(file, e) {
      forall p | p in ps && p.ptype == 1 ensures p.offset + p.filesz <= |file| {
        var i :| 0 <= i < |ps| && ps[i] == p;
        assert es[i] in es;
      }
    } else {
      var e :| e in es && !Loads(file, e);
      var i :| 0 <= i < |es| && es[i] == e;
      assert ps[i] in ps;
    }
  }

  /** Anything else is refused without effect: no file, less than a file header, or other first bytes. */
  lemma NotExecutable(src: Source, entry: Word, mem: seq<Byte>)
    requires src.File? ==>
      |src.bytes| < 52 || src.bytes[0] != 0x7F || src.bytes[1] != 0x45 || src.bytes[2] != 0x4C || src.bytes[3] != 0x46
    ensures SafeToLoad(src, |mem|) && Loaded(src, entry, mem) == (-1, entry, mem)
  {
    if src.File? && |src.bytes| >= 52 {
      assert src.bytes[..4][0] == src.bytes[0] && src.bytes[..4][1] == src.bytes[1];
      assert src.bytes[..4][2] == src.bytes[2] && src.bytes[..4][3] == src.bytes[3];
    }
  }
}
