/** The current directory over whole runs: the path `vfs_pwd` prints always leads back. */
module Walks {
  import opened Machine
  import opened CString
  import opened InodeLayout
  import opened FileTree
  import opened Descriptors
  import opened Paths
  import opened VfsModel
  import opened VfsRuns
  import opened Files
  import opened Vfs

  /** `i` is `n` levels down, and every step of its path is the one `vfs_cd` takes for the name. */
  ghost predicate Entered(t: Table, i: nat, n: nat)
    decreases n
  {
    i < MAX_INODES &&
    if n == 0 then i == 0
    else
      && i != 0 && IsDir(t, i) && !Special(NameOf(t[i]))
      && Find(t, t[i].parent, NameOf(t[i])) == i && Entered(t, t[i].parent, n - 1)
  }

  lemma EnteredByName(t: Table, i: nat, n: nat)
    requires Entered(t, i, n) && n > 0
    ensures Cd(t, t[i].parent, NameOf(t[i])).0 == i
  {
  }

  lemma {:induction false} EnteredReplays(t: Table, from: nat, i: nat, n: nat)
    requires Entered(t, i, n)
    ensures Rooted(t, i, n) && Replay(t, from, Names(t, i, n)) == i
    decreases n
  {
    if n > 0 {
      EnteredReplays(t, from, t[i].parent, n - 1);
      EnteredByName(t, i, n);
      ReplayStep(t, from, i, n);
    }
  }

  /** The directory `vfs_cd` reaches through the names of `i` is `i` only if each name on the way is the one
      it takes: a path of `n` names reaches depth `n` only by going down at each of them. */
  lemma {:induction false} ReplayedEntered(t: Table, from: nat, i: nat, n: nat)
    requires Walkable(t) && IsDir(t, i) && Rooted(t, i, n) && Replay(t, from, Names(t, i, n)) == i
    ensures Entered(t, i, n)
    decreases n
  {
    if n > 0 {
      var p, name := t[i].parent, NameOf(t[i]);
      var q := Replay(t, from, Names(t, p, n - 1));
      var m := ReplayDepth(t, from, Names(t, p, n - 1));
      ReplayStep(t, from, i, n);
      LastStepDown(t, q, name, m, i, n);
      ReplayedEntered(t, from, p, n - 1);
    }
  }

  lemma LastStepDown(t: Table, q: nat, name: seq<Byte>, m: nat, i: nat, n: nat)
    requires Walkable(t) && IsDir(t, q) && Rooted(t, q, m) && m < n && Rooted(t, i, n) && Cd(t, q, name).0 == i
    ensures !Special(name) && Find(t, q, name) == i && t[i].parent == q
  {
    var m' := CdDepth(t, q, name, m);
    RootedOnce(t, i, n, m');
    if Find(t, q, name) != i { RootedOnce(t, i, n, m); }
  }

  /** No directory on the way to `i` has a special name, or a name that an earlier entry has. */
  ghost predicate ClearPath(t: Table, i: nat, n: nat)
    requires Rooted(t, i, n)
  {
    forall k :: 0 <= k < n ==>
      var c := Chain(t, i, n)[k];
      c < MAX_INODES && !Special(NameOf(t[c])) && !Shadowed(t, c)
  }

  /** A directory below the root is found by its name unless it is shadowed. */
  ghost predicate FoundOrShadowed(t: Table, i: nat) {
    IsDir(t, i) && i != 0 ==> IsDir(t, t[i].parent) && (Find(t, t[i].parent, NameOf(t[i])) == i <==> !Shadowed(t, i))
  }

  lemma TreeFoundOrShadowed(t: Table)
    requires IsTree(t)
    ensures forall i: nat :: FoundOrShadowed(t, i)
  {
    forall i: nat ensures FoundOrShadowed(t, i) {
      if IsDir(t, i) && i != 0 {
        ParentIsDir(t, i);
        FoundUnlessShadowed(t, i);
      }
    }
  }

  lemma {:induction false} EnteredIffClear(t: Table, i: nat, n: nat)
    requires (forall j: nat :: FoundOrShadowed(t, j)) && IsDir(t, i) && Rooted(t, i, n)
    ensures Entered(t, i, n) <==> ClearPath(t, i, n)
    decreases n
  {
    if n > 0 {
      assert FoundOrShadowed(t, i);
      EnteredIffClear(t, t[i].parent, n - 1);
      ClearStep(t, i, n);
    }
  }

  lemma ClearStep(t: Table, i: nat, n: nat)
    requires Rooted(t, i, n) && n > 0
    ensures ClearPath(t, i, n) <==> ClearPath(t, t[i].parent, n - 1) && !Special(NameOf(t[i])) && !Shadowed(t, i)
  {
    var c, d := Chain(t, i, n), Chain(t, t[i].parent, n - 1);
    assert c[0] == i && forall k :: 0 <= k < n - 1 ==> d[k] == c[k + 1];
    if ClearPath(t, i, n) {
      forall k | 0 <= k < n - 1 ensures d[k] < MAX_INODES && !Special(NameOf(t[d[k]])) && !Shadowed(t, d[k]) {
        assert d[k] == c[k + 1];
      }
    }
  }

  lemma {:induction false} ClearIfUnique(t: Table, i: nat, n: nat)
    requires IsTree(t) && UniqueNames(t) && IsDir(t, i) && Rooted(t, i, n)
    ensures ClearPath(t, i, n) <==> forall p :: p in Names(t, i, n) ==> !Special(p)
    decreases n
  {
    if n > 0 {
      var p := t[i].parent;
      ParentIsDir(t, i);
      NoneShadowed(t, i);
      ClearIfUnique(t, p, n - 1);
      ClearStep(t, i, n);
      LastName(t, i, n);
    }
  }

  lemma LastName(t: Table, i: nat, n: nat)
    requires Rooted(t, i, n) && n > 0
    ensures (forall p :: p in Names(t, i, n) ==> !Special(p)) <==>
      (forall p :: p in Names(t, t[i].parent, n - 1) ==> !Special(p)) && !Special(NameOf(t[i]))
  {
    assert forall p :: p in Names(t, i, n) <==> p in Names(t, t[i].parent, n - 1) || p == NameOf(t[i]);
  }

  lemma ParentIsDir(t: Table, i: nat)
    requires IsTree(t) && IsDir(t, i) && i != 0
    ensures IsDir(t, t[i].parent)
  {
    TreeWalkable(t);
    assert StepsUp(t, i);
  }

  /** `vfs_cd` by the bytes of its argument. "/" leads to the root; ".." to the directory that lists the current
      one, and nowhere from the root; any other name to the child directory that is the first of that name. If
      there is none the answer is -1 and nothing changes. */
  lemma ChangeDirSpec(fs: Fs, n: seq<Byte>)
    requires Settled(fs)
    ensures var (t, cwd, (fs', r)) := (fs.s.t, fs.cwd, ChangeDir(fs, n));
            && fs' == fs.(cwd := fs'.cwd)
            && (n == [47] ==> r == 0 && fs'.cwd == 0)
            && (n == [46, 46] ==> r == 0 && if cwd == 0 then fs'.cwd == 0 else ListedBy(t, fs'.cwd, cwd))
            && (n != [47] && n != [46, 46] ==>
                  if exists i :: IsFirstDir(t, cwd, i, n) then r == 0 && IsFirstDir(t, cwd, fs'.cwd, n)
                  else r == -1 && fs'.cwd == cwd)
  {
    var t, cwd := fs.s.t, fs.cwd;
    if n == [46, 46] {
      ParentLists(t, cwd);
    } else if n != [47] {
      if IsDir(t, Find(t, cwd, n)) { FoundIsFirst(t, cwd, n); }
      forall i | IsFirstDir(t, cwd, i, n) ensures i == Find(t, cwd, n) {
        FirstIsFound(t, cwd, i, n);
      }
    }
  }

  lemma ParentLists(t: Table, i: nat)
    requires IsTree(t) && IsDir(t, i)
    ensures i != 0 ==> ListedBy(t, t[i].parent, i)
  {
    assert Used(t, i);
  }

  lemma FoundIsFirst(t: Table, d: nat, n: seq<Byte>)
    requires IsTree(t) && IsDir(t, d) && IsDir(t, Find(t, d, n))
    ensures IsFirstDir(t, d, Find(t, d, n), n)
  {
    FindSpec(t, d, n);
    FoundUnlessShadowed(t, Find(t, d, n));
  }

  lemma FirstIsFound(t: Table, d: nat, i: nat, n: seq<Byte>)
    requires IsTree(t) && IsFirstDir(t, d, i, n)
    ensures Find(t, d, n) == i
  {
    assert Used(t, i);
    FoundUnlessShadowed(t, i);
  }

  /** `i` is a directory in `d`, and the first entry there with the name `n`. */
  ghost predicate IsFirstDir(t: Table, d: nat, i: nat, n: seq<Byte>) {
    IsDir(t, i) && i != 0 && t[i].parent == d && ListedBy(t, d, i) && NameOf(t[i]) == n && !Shadowed(t, i)
  }

  /** Walking the names of a directory's path from "/" leads back to it exactly when no directory on the way
      is called ".." or "/" or has an earlier sibling of the same name. With unique sibling names that is:
      exactly when none of the printed names is special. */
  lemma PwdThenCd(t: Table, from: nat, i: nat, n: nat)
    requires IsTree(t) && IsDir(t, i) && Rooted(t, i, n)
    ensures Replay(t, from, Names(t, i, n)) == i <==> ClearPath(t, i, n)
    ensures UniqueNames(t) ==>
      (Replay(t, from, Names(t, i, n)) == i <==> forall p :: p in Names(t, i, n) ==> !Special(p))
  {
    TreeWalkable(t);
    TreeFoundOrShadowed(t);
    EnteredIffClear(t, i, n);
    if Entered(t, i, n) {
      EnteredReplays(t, from, i, n);
    } else if Replay(t, from, Names(t, i, n)) == i {
      ReplayedEntered(t, from, i, n);
    }
    if UniqueNames(t) { ClearIfUnique(t, i, n); }
  }

  lemma EnteredCd(t: Table, cwd: nat, p: seq<Byte>, n: nat) returns (m: nat)
    requires Walkable(t) && IsDir(t, cwd) && Entered(t, cwd, n)
    ensures Entered(t, Cd(t, cwd, p).0, m)
  {
    m := n;
    if p == DOT_DOT {
      m := if n > 0 then n - 1 else 0;
    } else if p == SLASH {
      m := 0;
    } else if IsDir(t, Find(t, cwd, p)) {
      FindFromSound(t, cwd, p, 0);
      m := n + 1;
    }
  }

  // ----- creations keep the way

  /** Every step of a path from the root survives a creation. */
  ghost predicate StepsKept(t: Table, t': Table) {
    forall i :: StepKeptAt(t, t', i)
  }

  ghost predicate StepKeptAt(t: Table, t': Table, i: int) {
    IsDir(t, i) && i != 0 && Find(t, t[i].parent, NameOf(t[i])) == i ==>
      && IsDir(t', i) && t'[i].parent == t[i].parent && NameOf(t'[i]) == NameOf(t[i])
      && Find(t', t[i].parent, NameOf(t[i])) == i
  }

  lemma {:induction false} EnteredKept(t: Table, t': Table, i: nat, n: nat)
    requires StepsKept(t, t') && Entered(t, i, n)
    ensures Entered(t', i, n)
    decreases n
  {
    if n > 0 {
      assert StepKeptAt(t, t', i);
      EnteredKept(t, t', t[i].parent, n - 1);
    }
  }

  lemma ExtendedKeepsSteps(t: Table, t': Table, d: nat, idx: nat)
    requires IsTree(t) && Extends(t, t', d, idx)
    ensures StepsKept(t, t')
  {
    TreeWalkable(t);
    TreeEntries(t);
    TreeBounded(t);
    forall i ensures StepKeptAt(t, t', i) {
      if IsDir(t, i) && i != 0 && Find(t, t[i].parent, NameOf(t[i])) == i {
        assert StepsUp(t, i);
        ParentFinds(t, t', d, idx, i);
      }
    }
  }

  lemma ParentFinds(t: Table, t': Table, d: nat, idx: nat, i: nat)
    requires Extends(t, t', d, idx) && IsDir(t, i) && IsDir(t, t[i].parent)
    requires Find(t, t[i].parent, NameOf(t[i])) == i
    requires forall e, j :: Lists(t, e, j) ==> Used(t, Child(t, e, j))
    requires t[t[i].parent].numEntries <= MAX_DIR_ENTRIES
    ensures IsDir(t', i) && t'[i].parent == t[i].parent && NameOf(t'[i]) == NameOf(t[i])
    ensures Find(t', t[i].parent, NameOf(t[i])) == i
  {
    assert Used(t, i) && Used(t, t[i].parent);
    ExtendedFind(t, t', d, idx, t[i].parent, NameOf(t[i]));
  }

  lemma SameTreeKeepsSteps(t: Table, t': Table)
    requires SameTree(t, t')
    ensures StepsKept(t, t')
  {
    forall i ensures StepKeptAt(t, t', i) {
      if IsDir(t, i) && i != 0 && IsDir(t, t[i].parent) {
        SameTreeFind(t, t', t[i].parent, NameOf(t[i]), 0);
      }
    }
  }

  // ----- whole runs

  ghost predicate AtPath(fs: Fs) {
    exists n: nat :: Entered(fs.s.t, fs.cwd, n)
  }

  lemma CreateKeepsPath(t: Table, d: nat, name: seq<Byte>, itype: Word, i: nat, n: nat)
    requires IsTree(t) && CanCreate(t, d, name) && NulFree(name) && itype in {INODE_FILE, INODE_DIR} && Entered(t, i, n)
    ensures Entered(Create(t, d, name, itype), i, n)
  {
    CreateExtends(t, d, name, itype);
    ExtendedKeepsSteps(t, Create(t, d, name, itype), d, FreeFrom(t, 0));
    EnteredKept(t, Create(t, d, name, itype), i, n);
  }

  lemma NodeKeepsPath(fs: Fs, name: seq<Byte>, itype: Word)
    requires Settled(fs) && AtPath(fs) && NulFree(name) && itype in {INODE_FILE, INODE_DIR}
    ensures AtPath(MakeNode(fs, name, itype).0)
  {
    var n: nat :| Entered(fs.s.t, fs.cwd, n);
    if CanCreate(fs.s.t, fs.cwd, name) {
      CreateKeepsPath(fs.s.t, fs.cwd, name, itype, fs.cwd, n);
    }
  }

  lemma TargetKeepsPath(t: Table, cwd: nat, name: seq<Byte>, n: nat)
    requires IsTree(t) && NulFree(name) && Entered(t, cwd, n)
    ensures Entered(WriteTarget(t, cwd, name).0, cwd, n)
  {
    if Find(t, cwd, name) < 0 && CanCreate(t, cwd, name) {
      CreateKeepsPath(t, cwd, name, INODE_FILE, cwd, n);
    }
  }

  lemma OverwriteKeepsPath(t: Table, i: nat, content: seq<Byte>, cwd: nat, n: nat)
    requires i < MAX_INODES && Entered(t, cwd, n)
    ensures Entered(Overwritten(t, i, content), cwd, n)
  {
    SameTreeKeepsSteps(t, Overwritten(t, i, content));
    EnteredKept(t, Overwritten(t, i, content), cwd, n);
  }

  lemma WriteKeepsPath(fs: Fs, name: seq<Byte>, content: seq<Byte>)
    requires IsTree(fs.s.t) && AtPath(fs) && NulFree(name) && |content| < INT_LIMIT
    ensures AtPath(WriteFile(fs, name, content).0)
  {
    var n: nat :| Entered(fs.s.t, fs.cwd, n);
    var (t, i) := WriteTarget(fs.s.t, fs.cwd, name);
    WriteFileEffect(fs, name, content);
    TargetKeepsPath(fs.s.t, fs.cwd, name, n);
    if IsFile(t, i) && FreeFd(fs.s.fds, 0) >= 0 {
      OverwriteKeepsPath(t, i, content, fs.cwd, n);
    }
  }

  lemma StepKeepsPath(fs: Fs, c: VfsCall)
    requires Settled(fs) && AtPath(fs) && Legal(fs, c)
    ensures AtPath(Step(fs, c))
  {
    match c {
      case CallInit => assert Entered(Step(fs, c).s.t, 0, 0);
      case CallMkdir(name) => NodeKeepsPath(fs, name, INODE_DIR);
      case CallTouch(name) => NodeKeepsPath(fs, name, INODE_FILE);
      case CallCd(name) =>
        var n: nat :| Entered(fs.s.t, fs.cwd, n);
        TreeWalkable(fs.s.t);
        var m := EnteredCd(fs.s.t, fs.cwd, name, n);
      case CallWrite(name, content) => WriteKeepsPath(fs, name, content);
      case CallRead(name, size, offset) => ReadAtDelivers(fs, name, size, offset);
      case CallCat(name) => ReadAtDelivers(fs, name, MAX_FILE_SIZE, 0);
    }
  }

  lemma {:induction false} RunKeepsPath(fs: Fs, calls: seq<VfsCall>)
    requires Settled(fs) && AtPath(fs) && LegalRun(fs, calls)
    ensures AtPath(Run(fs, calls))
    decreases calls
  {
    if calls != [] {
      StepKept(fs, calls[0]);
      StepKeepsPath(fs, calls[0]);
      RunKeepsPath(Step(fs, calls[0]), calls[1..]);
    }
  }

  /** In every state a run from the root can reach, `vfs_pwd` terminates within its 32 slots, and `vfs_cd`
      to "/", from anywhere, and through the names below the root returns to the current directory. This asks nothing of
      the names: a directory called ".." or "/", or hidden behind an older one of the same name, can be
      created but never entered. */
  lemma PwdLeadsBack(fs: Fs, calls: seq<VfsCall>, from: nat) returns (n: nat)
    requires Settled(fs) && fs.cwd == 0 && LegalRun(fs, calls)
    ensures var fs' := Run(fs, calls);
            && Rooted(fs'.s.t, fs'.cwd, n) && n + 1 <= MAX_INODES
            && Replay(fs'.s.t, from, Names(fs'.s.t, fs'.cwd, n)) == fs'.cwd
  {
    assert Entered(fs.s.t, fs.cwd, 0);
    RunKeepsPath(fs, calls);
    var fs' := Run(fs, calls);
    n :| Entered(fs'.s.t, fs'.cwd, n);
    EnteredReplays(fs'.s.t, from, fs'.cwd, n);
    DepthBound(fs'.s.t, fs'.cwd, n);
  }

  /** So the text `vfs_pwd` prints, taken apart at its slashes, leads back too, if no name on it has a slash. */
  lemma PwdTextLeadsBack(fs: Fs, calls: seq<VfsCall>, from: nat) returns (n: nat)
    requires Settled(fs) && fs.cwd == 0 && LegalRun(fs, calls)
    ensures Rooted(Run(fs, calls).s.t, Run(fs, calls).cwd, n)
    ensures var (t, cwd) := (Run(fs, calls).s.t, Run(fs, calls).cwd);
            var (root, names) := (NameOf(t[0]), Names(t, cwd, n));
            47 !in root && (forall p :: p in names ==> 47 !in p) ==>
              var cs := Components([47] + root + Slashed(names));
              |cs| == n + 2 && Replay(t, from, cs[2..]) == cwd
  {
    n := PwdLeadsBack(fs, calls, from);
    var fs' := Run(fs, calls);
    var root, names := NameOf(fs'.s.t[0]), Names(fs'.s.t, fs'.cwd, n);
    if 47 !in root && forall p :: p in names ==> 47 !in p {
      PrintedComponents(root, names);
      assert ([[], root] + names)[2..] == names;
    }
  }

  /** What `vfs_mkdir` adds: a directory below `d` that is found by its name exactly when that was stored whole,
      and is not what ".." leads to from `d`. */
  lemma MadeDirectory(t: Table, d: nat, name: seq<Byte>)
    requires GoodTable(t) && CanCreate(t, d, name) && NulFree(name)
    ensures var (t', idx) := (Create(t, d, name, INODE_DIR), FreeFrom(t, 0));
            && 0 < idx < MAX_INODES && IsDir(t', idx) && t'[idx].parent == d && IsDir(t', d)
            && Find(t', d, name) == (if |name| < MAX_FILENAME then idx else -1)
            && Cd(t', d, DOT_DOT).0 != idx
  {
    var t', idx := Create(t, d, name, INODE_DIR), FreeFrom(t, 0);
    CreateGood(t, d, name, INODE_DIR);
    CreateExtends(t, d, name, INODE_DIR);
    if |name| < MAX_FILENAME {
      CreateThenFind(t, d, name, INODE_DIR);
    } else {
      LongNameNeverFound(t', d, name);
    }
    ParentInUse(t, d);
  }

  lemma ParentInUse(t: Table, d: nat)
    requires IsTree(t) && IsDir(t, d)
    ensures Used(t, d) && (d != 0 ==> Used(t, t[d].parent))
  {
    TreeWalkable(t);
    assert StepsUp(t, d);
  }

  /** In a settled state every call of `FileSystem` can be made: its directory scans are safe, and the
      current directory has a parent chain that fits the slots of `vfs_pwd`. */
  lemma SettledReady(fs: FileSystem) returns (n: nat)
    requires fs.Valid() && Settled(fs.State())
    ensures fs.Ready()
    ensures Rooted(fs.inodes[..], fs.currentDir, n) && n + 1 <= MAX_INODES && NamesEnd(fs.inodes[..], fs.currentDir, n)
  {
    var t, cwd := fs.State().s.t, fs.currentDir;
    TreeSearchable(t, cwd);
    assert Used(t, cwd) && Reaches(t, cwd);
    n :| Rooted(t, cwd, n);
    DepthBound(t, cwd, n);
    ChainNamesEnd(t, cwd, n);
  }

  lemma {:induction false} ChainNamesEnd(t: Table, i: nat, n: nat)
    requires IsTree(t) && Used(t, i) && Rooted(t, i, n)
    ensures NamesEnd(t, i, n)
    decreases n
  {
    if n > 0 {
      assert ListedBy(t, t[i].parent, i);
      ChainNamesEnd(t, t[i].parent, n - 1);
    }
  }

  /** A directory just made is entered by its name exactly when the name fits its field and is neither
      ".." nor "/"; ".." leads back from it in any case. */
  lemma MkdirCdUp(fs: Fs, name: seq<Byte>)
    requires Settled(fs) && NulFree(name) && Mkdir(fs, name).1 >= 0
    ensures var (made, idx) := Mkdir(fs, name);
            && (ChangeDir(made, name) == (made.(cwd := idx), 0) <==> |name| < MAX_FILENAME && !Special(name))
            && ChangeDir(made.(cwd := idx), DOT_DOT) == (made, 0)
  {
    MadeDirectory(fs.s.t, fs.cwd, name);
  }

  // ----- names that do not fit

  /** A name of 32 bytes or more is stored cut, so it is never found. */
  lemma LongNameNeverFound(t: Table, d: nat, n: seq<Byte>)
    requires IsTree(t) && IsDir(t, d) && |n| >= MAX_FILENAME
    ensures Find(t, d, n) == -1
  {
    FindSpec(t, d, n);
    var r := Find(t, d, n);
    if r != -1 {
      UpToNulIsPrefix(t[r].name);
    }
  }

  /** So nothing written under such a name is read back under it, whether the write succeeded or not. */
  lemma LongNameNotReadBack(fs: Fs, n: seq<Byte>, content: seq<Byte>, size: Word, offset: Word)
    requires Settled(fs) && NulFree(n) && |n| >= MAX_FILENAME && |content| < INT_LIMIT
    ensures var fs' := WriteFile(fs, n, content).0;
            CanReadAt(fs', n, size, offset) && ReadAt(fs', n, size, offset) == (fs', -1, [])
  {
    var fs' := WriteFile(fs, n, content).0;
    WriteKept(fs, n, content);
    LongNameNeverFound(fs'.s.t, fs'.cwd, n);
  }

  /** Creating an over-long name twice succeeds twice and leaves two siblings with the same name. */
  lemma LongNameTwice(t: Table, d: nat, n: seq<Byte>, itype: Word)
    requires GoodTable(t) && NulFree(n) && |n| >= MAX_FILENAME && itype in {INODE_FILE, INODE_DIR}
    requires CanCreate(t, d, n) && CanCreate(Create(t, d, n, itype), d, n)
    ensures !UniqueNames(Create(Create(t, d, n, itype), d, n, itype))
  {
    var t1, idx := Create(t, d, n, itype), FreeFrom(t, 0);
    CreateGood(t, d, n, itype);
    if UniqueNames(t1) {
      CreateThenFind(t, d, n, itype);
      CreateKeepsUnique(t1, d, n, itype);
    } else {
      ClashStays(t1, d, n, itype);
    }
  }

  lemma ClashStays(t: Table, d: nat, n: seq<Byte>, itype: Word)
    requires GoodTable(t) && !UniqueNames(t) && NulFree(n) && itype in {INODE_FILE, INODE_DIR} && CanCreate(t, d, n)
    ensures !UniqueNames(Create(t, d, n, itype))
  {
    var t' := Create(t, d, n, itype);
    CreateExtends(t, d, n, itype);
    TreeEntries(t);
    var e, k, l :| Lists(t, e, k) && Lists(t, e, l) && k != l
                   && Child(t, e, k) < MAX_INODES && Child(t, e, l) < MAX_INODES
                   && NameOf(t[Child(t, e, k)]) == NameOf(t[Child(t, e, l)]);
    assert Lists(t', e, k) && Lists(t', e, l);
    assert Used(t, Child(t, e, k)) && Used(t, Child(t, e, l));
  }

  /** The path of the second of two such directories has no special name, and leads to the first. */
  lemma ShadowedPath(fs: Fs, from: nat)
    requires fs.disk == seq(MAX_INODES, _ => Zero()) && NoneOpen(fs.s.fds)
    ensures var n: seq<Byte> := seq(32, _ => 97);
            var (once, first) := Mkdir(Init(fs), n);
            var (twice, second) := Mkdir(once, n);
            var t := twice.s.t;
            && Settled(twice) && 0 < first && 0 < second && first != second
            && IsDir(t, second) && Rooted(t, second, 1)
            && (forall p :: p in Names(t, second, 1) ==> !Special(p))
            && Replay(t, from, Names(t, second, 1)) == first
  {
    var n: seq<Byte> := seq(32, _ => 97);
    ZeroedDriveSettles(fs);
    var t := Init(fs).s.t;
    LongNameNeverFound(t, 0, n);
    FreeFromIsFirst(t, 0);
    assert !Used(t, 2);
    assert CanCreate(t, 0, n);
    MadeDirectory(t, 0, n);
    var t1, first := Create(t, 0, n, INODE_DIR), FreeFrom(t, 0);
    CreateGood(t, 0, n, INODE_DIR);
    CreateExtends(t, 0, n, INODE_DIR);
    LongNameNeverFound(t1, 0, n);
    FreeFromIsFirst(t1, 0);
    assert !Used(t, 3) && (!Used(t1, 2) || !Used(t1, 3));
    assert CanCreate(t1, 0, n);
    TwinPath(t, t1, from, n);
  }

  lemma TwinPath(t: Table, t1: Table, from: nat, n: seq<Byte>)
    requires GoodTable(t) && NulFree(n) && !Special(Stored(n)) && CanCreate(t, 0, n) && Find(t, 0, Stored(n)) == -1
    requires t1 == Create(t, 0, n, INODE_DIR) && CanCreate(t1, 0, n)
    ensures var (t2, first, second) := (Create(t1, 0, n, INODE_DIR), FreeFrom(t, 0), FreeFrom(t1, 0));
            && GoodTable(t2) && 0 < first && 0 < second && first != second
            && IsDir(t2, second) && Rooted(t2, second, 1)
            && Names(t2, second, 1) == [Stored(n)] && Replay(t2, from, [Stored(n)]) == first
  {
    var first, second := FreeFrom(t, 0), FreeFrom(t1, 0);
    CreateGood(t, 0, n, INODE_DIR);
    MadeDirectory(t, 0, n);
    CreateThenFind(t, 0, n, INODE_DIR);
    CreateGood(t1, 0, n, INODE_DIR);
    MadeDirectory(t1, 0, n);
    CreateThenFind(t1, 0, n, INODE_DIR);
    FreeFromIsFirst(t1, 0);
    MadeKeepsOld(t1, n, first);
    NameInRoot(Create(t1, 0, n, INODE_DIR), from, second, first, Stored(n));
  }

  lemma MadeKeepsOld(t: Table, n: seq<Byte>, e: nat)
    requires IsDir(t, 0) && CanCreate(t, 0, n) && NulFree(n) && IsDir(t, e)
    ensures var t' := Create(t, 0, n, INODE_DIR); IsDir(t', e) && NameOf(t'[FreeFrom(t, 0)]) == Stored(n)
  {
    CreateExtends(t, 0, n, INODE_DIR);
    NewInodeName(n, INODE_DIR, 0);
    assert Used(t, e);
  }

  /** The path of a directory in the root is its name, which leads to what a lookup finds. */
  lemma NameInRoot(t: Table, from: nat, i: nat, found: nat, n: seq<Byte>)
    requires 0 < i < MAX_INODES && t[i].parent == 0 && NameOf(t[i]) == n && !Special(n)
    requires Find(t, 0, n) == found && IsDir(t, found)
    ensures Rooted(t, i, 1) && Names(t, i, 1) == [n] && Replay(t, from, [n]) == found
  {
    assert Rooted(t, 0, 0) && Names(t, 0, 0) == [];
    ReplayNone(t, from);
    ReplaySnoc(t, from, [], n);
    assert [] + [n] == [n];
  }

  /** It happens: on a zeroed drive, touching thirty-two 'a' twice. */
  lemma LongNameClash(fs: Fs)
    requires fs.disk == seq(MAX_INODES, _ => Zero()) && NoneOpen(fs.s.fds)
    ensures var n: seq<Byte> := seq(32, _ => 97);
            var (once, r) := Touch(Init(fs), n);
            var (twice, r') := Touch(once, n);
            r == 0 && r' == 0 && !UniqueNames(twice.s.t)
  {
    var n: seq<Byte> := seq(32, _ => 97);
    ZeroedDriveSettles(fs);
    var t := Init(fs).s.t;
    LongNameNeverFound(t, 0, n);
    FreeFromIsFirst(t, 0);
    assert !Used(t, 2);
    assert CanCreate(t, 0, n);
    CreateGood(t, 0, n, INODE_FILE);
    CreateExtends(t, 0, n, INODE_FILE);
    var t1 := Create(t, 0, n, INODE_FILE);
    LongNameNeverFound(t1, 0, n);
    FreeFromIsFirst(t1, 0);
    assert !Used(t, 3) && (!Used(t1, 2) || !Used(t1, 3));
    LongNameTwice(t, 0, n, INODE_FILE);
  }
}
