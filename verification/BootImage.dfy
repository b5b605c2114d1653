/** From the host tool to a loaded program: an executable installed by `tools/mkfs.py` is what `elf_load`
    puts into memory. */
module BootImage {
  import opened Machine
  import opened CString
  import opened InodeLayout
  import opened FileTree
  import opened Descriptors
  import opened VfsModel
  import opened Vfs
  import opened MkFs
  import opened ElfLoader
  import opened ElfFormat

  /** After `vfs_init` on an image the tool wrote to, loading the installed name succeeds exactly when the host
      file is a complete executable, answers its entry point, and leaves the memory image of the host file. */
  lemma InstalledProgramLoads(image: seq<Byte>, name: seq<Byte>, content: seq<Byte>, memory: Session, cwd: nat,
                              entry: Word, mem: seq<Byte>)
    requires |image| >= MAX_INODES * INODE_STRIDE && FreeFd(memory.fds, 0) >= 0
    requires SafeToLoad(File(Clip(content, MAX_FILE_SIZE)), |mem|)
    ensures TableDrive(Sectors(Installed(image, name, content)))
    ensures var fs := Init(Fs(memory, cwd, DiskTable(Sectors(Installed(image, name, content)))));
            var src := SourceOf(fs, UpToNul(Stored(name)));
            var host := Clip(content, MAX_FILE_SIZE);
            && src == File(host) && SizeFits(fs, UpToNul(Stored(name)))
            && var (r, start, after) := Loaded(src, entry, mem);
            && (r == 0 <==> HasHeader(host) && AllLoad(host, Entries(host, HeaderOf(src))))
            && (r == 0 ==> start == HeaderOf(src).entry && HoldsImage(host, Entries(host, HeaderOf(src)), mem, after))
  {
    InstalledTableRead(image, name, content);
    InstalledSource(DiskTable(Sectors(image)), name, content, memory, cwd);
    CompleteLoad(File(Clip(content, MAX_FILE_SIZE)), entry, mem);
  }

  /** So an executable that the tool installs is in memory after the load as its program headers say. */
  lemma InstalledExecutable(image: seq<Byte>, name: seq<Byte>, file: seq<Byte>, h: FileHeader, ps: seq<ProgramHeader>,
                            memory: Session, cwd: nat, entry: Word, mem: seq<Byte>, a: nat, i: int)
    requires |image| >= MAX_INODES * INODE_STRIDE && FreeFd(memory.fds, 0) >= 0 && |file| <= MAX_FILE_SIZE
    requires LaidOut(file, h, ps) && a < |mem| <= TWO_32 && AllFit(ps, |file|, |mem|)
    requires -1 <= i < |ps| && (i >= 0 ==> ps[i].Occupies(a)) && forall j :: i < j < |ps| ==> !ps[j].Occupies(a)
    ensures TableDrive(Sectors(Installed(image, name, file)))
    ensures var fs := Init(Fs(memory, cwd, DiskTable(Sectors(Installed(image, name, file)))));
            var src := SourceOf(fs, UpToNul(Stored(name)));
            && SafeToLoad(src, |mem|)
            && var (r, start, after) := Loaded(src, entry, mem);
            r == 0 && start == h.entry && after[a] == if i < 0 then mem[a] else ByteFor(file, ps[i], a)
  {
    assert Clip(file, MAX_FILE_SIZE) == file;
    ExecutableLoads(file, h, ps, entry, mem);
    ExecutableMemory(file, h, ps, entry, mem, a, i);
    InstalledProgramLoads(image, name, file, memory, cwd, entry, mem);
  }

  lemma CompleteLoad(src: Source, entry: Word, mem: seq<Byte>)
    requires SafeToLoad(src, |mem|)
    ensures var (r, start, after) := Loaded(src, entry, mem);
            && (r == 0 <==> Starts(src) && AllLoad(src.bytes, Entries(src.bytes, HeaderOf(src))))
            && (r == 0 ==>
                  && start == HeaderOf(src).entry
                  && HoldsImage(src.bytes, Entries(src.bytes, HeaderOf(src)), mem, after))
  {
    ElfLoadSucceedsIff(src, entry, mem);
    if Loaded(src, entry, mem).0 == 0 {
      LoadedImage(src.bytes, Entries(src.bytes, HeaderOf(src)), mem);
    }
  }

  lemma InstalledSource(t0: Table, name: seq<Byte>, content: seq<Byte>, memory: Session, cwd: nat)
    requires FreeFd(memory.fds, 0) >= 0
    ensures var fs := Init(Fs(memory, cwd, InstalledTable(t0, name, content)));
            var n := UpToNul(Stored(name));
            SourceOf(fs, n) == File(Clip(content, MAX_FILE_SIZE)) && SizeFits(fs, n)
  {
    InstalledFind(t0, name, content, UpToNul(Stored(name)));
    InstalledContent(t0, name, content);
  }
}
