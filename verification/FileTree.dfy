/** The inode table as a tree of named files and directories. */
module FileTree {
  import opened Machine
  import opened CString
  import opened InodeLayout

  type Table = t: seq<Inode> | |t| == MAX_INODES witness seq(MAX_INODES, _ => Zero())

  predicate Used(t: Table, i: int) {
    0 <= i < MAX_INODES && t[i].itype != INODE_FREE
  }

  predicate IsDir(t: Table, d: int) {
    0 <= d < MAX_INODES && t[d].itype == INODE_DIR
  }

  predicate IsFile(t: Table, i: int) {
    0 <= i < MAX_INODES && t[i].itype == INODE_FILE
  }

  /** Slot `k` of directory `d` is in use. */
  predicate Lists(t: Table, d: int, k: int) {
    IsDir(t, d) && 0 <= k < t[d].numEntries && k < MAX_DIR_ENTRIES
  }

  function Child(t: Table, d: nat, k: nat): nat
    requires d < MAX_INODES && k < MAX_DIR_ENTRIES
  {
    t[d].entries[k]
  }

  /** The name of an inode, as a string. */
  function NameOf(i: Inode): seq<Byte> {
    UpToNul(i.name)
  }

  // ----- lookups

  /** The first free inode from `k` on, or -1. */
  function FreeFrom(t: Table, k: nat): (r: int)
    requires k <= MAX_INODES
    ensures -1 <= r < MAX_INODES
    decreases MAX_INODES - k
  {
    if k == MAX_INODES then -1 else if t[k].itype == INODE_FREE then k else FreeFrom(t, k + 1)
  }

  /** The first child of `d` from slot `k` on with name `n`, or -1. */
  function FindFrom(t: Table, d: nat, n: seq<Byte>, k: nat): int
    requires d < MAX_INODES
    decreases MAX_DIR_ENTRIES - k
  {
    if k >= t[d].numEntries || k >= MAX_DIR_ENTRIES then -1
    else
      var c := Child(t, d, k);
      if c < MAX_INODES && NameOf(t[c]) == n then c else FindFrom(t, d, n, k + 1)
  }

  function Find(t: Table, d: nat, n: seq<Byte>): int {
    if IsDir(t, d) then FindFrom(t, d, n, 0) else -1
  }

  // ----- updates

  /** The 31 bytes of a name that fit beside the terminating NUL. */
  function Stored(n: seq<Byte>): (s: seq<Byte>)
    ensures |s| < MAX_FILENAME
  {
    n[..Min(|n|, MAX_FILENAME - 1)]
  }

  function NewInode(n: seq<Byte>, itype: Word, parent: Word): Inode {
    Record(Stored(n) + Zeros(MAX_FILENAME - |Stored(n)|), itype, 0, parent, 0, Zero().entries, Zero().data)
  }

  /** A name can be created in directory `d`. */
  predicate CanCreate(t: Table, d: nat, n: seq<Byte>) {
    FreeFrom(t, 0) >= 0 && IsDir(t, d) && t[d].numEntries < MAX_DIR_ENTRIES && Find(t, d, n) == -1
  }

  /** Inode `idx` becomes an entry of directory `d`. */
  function Link(i: Inode, idx: Word): Inode
    requires i.numEntries < MAX_DIR_ENTRIES
  {
    i.(entries := i.entries[i.numEntries := idx], numEntries := i.numEntries + 1)
  }

  function Create(t: Table, d: nat, n: seq<Byte>, itype: Word): Table
    requires CanCreate(t, d, n)
  {
    var idx := FreeFrom(t, 0);
    t[idx := NewInode(n, itype, d)][d := Link(t[d], idx)]
  }

  /** The inode after writing `bytes` at `pos`. */
  function WriteAt(i: Inode, pos: nat, bytes: seq<Byte>): Inode
    requires pos + |bytes| <= MAX_FILE_SIZE
  {
    i.(data := Splice(i.data, pos, bytes), size := if pos + |bytes| > i.size then pos + |bytes| else i.size)
  }

  // ----- the tree invariant

  /** The parent chain of `i` reaches inode 0 in exactly `n` steps. */
  ghost predicate Rooted(t: Table, i: nat, n: nat)
    decreases n
  {
    i < MAX_INODES && if n == 0 then i == 0 else i != 0 && Rooted(t, t[i].parent, n - 1)
  }

  ghost predicate Reaches(t: Table, i: nat) {
    exists n: nat :: Rooted(t, i, n)
  }

  ghost predicate ListedBy(t: Table, d: nat, i: nat) {
    exists k :: Lists(t, d, k) && Child(t, d, k) == i
  }

  ghost predicate IsTree(t: Table) {
    && IsDir(t, 0)
    && (forall d :: IsDir(t, d) ==> t[d].numEntries <= MAX_DIR_ENTRIES)
    && (forall i :: Used(t, i) ==> 0 in t[i].name)
    // every entry names a used inode below the root whose parent is this directory
    && (forall d, k :: Lists(t, d, k) ==>
          && 0 < Child(t, d, k) < MAX_INODES && Used(t, Child(t, d, k)) && t[Child(t, d, k)].parent == d)
    // and no inode is listed twice
    && (forall d, k, l :: Lists(t, d, k) && Lists(t, d, l) && Child(t, d, k) == Child(t, d, l) ==> k == l)
    // every used inode but the root is listed by its parent, and reaches the root
    && (forall i :: Used(t, i) && i != 0 ==> ListedBy(t, t[i].parent, i))
    && (forall i :: Used(t, i) ==> Reaches(t, i))
  }

  /** The parent of a directory below the root is a directory. */
  ghost predicate StepsUp(t: Table, i: int) {
    IsDir(t, i) && i != 0 ==> IsDir(t, t[i].parent)
  }

  /** What walks up and down need: parents are directories, and a lookup leads from a directory to one of
      its children. */
  ghost predicate Walkable(t: Table) {
    && IsDir(t, 0)
    && (forall i :: StepsUp(t, i))
    && (forall d, n :: IsDir(t, d) && Find(t, d, n) != -1 ==> 0 < Find(t, d, n) < MAX_INODES && t[Find(t, d, n)].parent == d)
  }

  /** No two children of a directory share a name. */
  ghost predicate UniqueNames(t: Table) {
    forall d, k, l :: Lists(t, d, k) && Lists(t, d, l) && k != l ==>
      var (c, e) := (Child(t, d, k), Child(t, d, l));
      c < MAX_INODES && e < MAX_INODES ==> NameOf(t[c]) != NameOf(t[e])
  }

  /** No file claims more bytes than its data area holds. */
  ghost predicate SizesFit(t: Table) {
    forall i :: IsFile(t, i) ==> t[i].size <= MAX_FILE_SIZE
  }

  // ----- lookups are what they claim

  lemma FreeFromIsFirst(t: Table, k: nat)
    requires k <= MAX_INODES
    ensures var r := FreeFrom(t, k);
            && -1 <= r < MAX_INODES
            && (r == -1 ==> forall i :: k <= i < MAX_INODES ==> Used(t, i))
            && (r >= 0 ==> k <= r && !Used(t, r) && forall i :: k <= i < r ==> Used(t, i))
    decreases MAX_INODES - k
  {
    if k < MAX_INODES && t[k].itype != INODE_FREE {
      FreeFromIsFirst(t, k + 1);
    }
  }

  lemma {:induction false} FindFromSound(t: Table, d: nat, n: seq<Byte>, k: nat)
    requires IsDir(t, d)
    ensures var r := FindFrom(t, d, n, k);
            && (r != -1 ==> 0 <= r < MAX_INODES && NameOf(t[r]) == n
                            && exists j :: k <= j && Lists(t, d, j) && Child(t, d, j) == r)
            && (r == -1 ==> forall j :: k <= j && Lists(t, d, j) && Child(t, d, j) < MAX_INODES ==>
                  NameOf(t[Child(t, d, j)]) != n)
    decreases MAX_DIR_ENTRIES - k
  {
    if k < t[d].numEntries && k < MAX_DIR_ENTRIES {
      assert Lists(t, d, k);
      FindFromSound(t, d, n, k + 1);
    }
  }

  /** In a tree, `Find` answers -1 exactly when no child has the name, and otherwise a child with it:
      the only one when sibling names are unique. */
  lemma FindSpec(t: Table, d: nat, n: seq<Byte>)
    requires IsTree(t) && IsDir(t, d)
    ensures var r := Find(t, d, n);
            && (r == -1 <==> forall i :: Used(t, i) && ListedBy(t, d, i) ==> NameOf(t[i]) != n)
            && (r != -1 ==> Used(t, r) && r != 0 && ListedBy(t, d, r) && t[r].parent == d && NameOf(t[r]) == n)
            && (r != -1 && UniqueNames(t) ==> forall i :: Used(t, i) && ListedBy(t, d, i) && NameOf(t[i]) == n ==> i == r)
  {
    var r := Find(t, d, n);
    FindFromSound(t, d, n, 0);
    forall i | Used(t, i) && ListedBy(t, d, i) && NameOf(t[i]) == n ensures r != -1 && (UniqueNames(t) ==> i == r) {
      var k :| Lists(t, d, k) && Child(t, d, k) == i;
      var j :| Lists(t, d, j) && Child(t, d, j) == r;
    }
  }

  /** An earlier entry of its parent has the name of `i`. */
  ghost predicate Shadowed(t: Table, i: nat)
    requires i < MAX_INODES
  {
    var p := t[i].parent;
    exists k, l :: k < l && Lists(t, p, k) && Lists(t, p, l) && Child(t, p, l) == i
                   && Child(t, p, k) < MAX_INODES && NameOf(t[Child(t, p, k)]) == NameOf(t[i])
  }

  /** The scan stops at the first entry with the name. */
  lemma {:induction false} FindFromFirst(t: Table, d: nat, n: seq<Byte>, k: nat) returns (j: nat)
    requires IsDir(t, d) && FindFrom(t, d, n, k) != -1
    ensures k <= j && Lists(t, d, j) && Child(t, d, j) == FindFrom(t, d, n, k)
    ensures forall l :: k <= l < j && Child(t, d, l) < MAX_INODES ==> NameOf(t[Child(t, d, l)]) != n
    decreases MAX_DIR_ENTRIES - k
  {
    var c := Child(t, d, k);
    if c < MAX_INODES && NameOf(t[c]) == n {
      j := k;
    } else {
      j := FindFromFirst(t, d, n, k + 1);
    }
  }

  /** An inode is found under its own name exactly when it is the first of that name in its directory. */
  lemma FoundUnlessShadowed(t: Table, i: nat)
    requires IsTree(t) && Used(t, i) && i != 0
    ensures Find(t, t[i].parent, NameOf(t[i])) == i <==> !Shadowed(t, i)
  {
    var p, n := t[i].parent, NameOf(t[i]);
    assert ListedBy(t, p, i);
    var l :| Lists(t, p, l) && Child(t, p, l) == i;
    FindFromSound(t, p, n, 0);
    var j := FindFromFirst(t, p, n, 0);
    FindSpec(t, p, n);
  }

  lemma NoneShadowed(t: Table, i: nat)
    requires IsTree(t) && UniqueNames(t) && i < MAX_INODES
    ensures !Shadowed(t, i)
  {
  }

  lemma TreeWalkable(t: Table)
    requires IsTree(t)
    ensures Walkable(t)
  {
    forall i ensures StepsUp(t, i) {
      if IsDir(t, i) && i != 0 { assert Used(t, i); }
    }
    forall d, n | IsDir(t, d) && Find(t, d, n) != -1
      ensures 0 < Find(t, d, n) < MAX_INODES && t[Find(t, d, n)].parent == d
    {
      FindSpec(t, d, n);
    }
  }

  /** A stored name is NUL-padded within its 32 bytes and reads back as the name cut to 31 bytes. */
  lemma NewInodeName(n: seq<Byte>, itype: Word, parent: Word)
    requires NulFree(n)
    ensures var i := NewInode(n, itype, parent);
            NameOf(i) == Stored(n) && 0 in i.name && forall k :: |Stored(n)| <= k < MAX_FILENAME ==> i.name[k] == 0
  {
    var i := NewInode(n, itype, parent);
    UpToNulOf(Stored(n), Zeros(MAX_FILENAME - |Stored(n)|));
    assert i.name[MAX_FILENAME - 1] == 0;
  }

  // ----- creation keeps the tree

  lemma {:induction false} RootedKept(t: Table, t': Table, i: nat, n: nat)
    requires IsTree(t) && Used(t, i) && Rooted(t, i, n)
    requires forall j :: Used(t, j) ==> t'[j].parent == t[j].parent
    ensures Rooted(t', i, n)
    decreases n
  {
    if n > 0 {
      assert ListedBy(t, t[i].parent, i);
      RootedKept(t, t', t[i].parent, n - 1);
    }
  }

  /** A name can be created exactly when one of the 32 inodes is free, the directory has fewer than 16 entries, and
      none of its entries has the name. */
  lemma CanCreateIff(t: Table, d: nat, n: seq<Byte>)
    requires IsTree(t) && IsDir(t, d)
    ensures CanCreate(t, d, n) <==>
      && (exists i :: 0 <= i < 32 && t[i].itype == 0)
      && t[d].numEntries < 16
      && (forall i :: Used(t, i) && ListedBy(t, d, i) ==> NameOf(t[i]) != n)
  {
    FreeExists(t);
    FindSpec(t, d, n);
  }

  lemma FreeExists(t: Table)
    ensures FreeFrom(t, 0) >= 0 <==> exists i :: 0 <= i < 32 && t[i].itype == 0
  {
    FreeFromIsFirst(t, 0);
    var f := FreeFrom(t, 0);
    assert f >= 0 ==> t[f].itype == 0;
    if i :| 0 <= i < 32 && t[i].itype == 0 {
      assert !Used(t, i);
    }
  }

  /** `t'` is `t` with the new inode `idx`, a file or directory, in the next slot of directory `d`. */
  ghost predicate Extends(t: Table, t': Table, d: nat, idx: nat) {
    && IsDir(t, d) && t[d].numEntries < MAX_DIR_ENTRIES && 0 < idx < MAX_INODES && !Used(t, idx)
    && (forall i :: Used(t', i) <==> Used(t, i) || i == idx)
    && (forall i :: Used(t, i) ==>
          t'[i].name == t[i].name && t'[i].itype == t[i].itype && t'[i].size == t[i].size && t'[i].parent == t[i].parent)
    && t'[idx].parent == d && t'[idx].itype in {INODE_FILE, INODE_DIR} && t'[idx].size <= MAX_FILE_SIZE && t'[idx].numEntries == 0
    && 0 in t'[idx].name
    && (forall e, k :: Lists(t', e, k) <==> Lists(t, e, k) || (e == d && k == t[d].numEntries))
    && (forall e, k :: Lists(t, e, k) ==> Child(t', e, k) == Child(t, e, k))
    && Child(t', d, t[d].numEntries) == idx
    && (forall e :: IsDir(t, e) ==> t'[e].numEntries == t[e].numEntries + if e == d then 1 else 0)
  }

  lemma CreateExtends(t: Table, d: nat, n: seq<Byte>, itype: Word)
    requires IsDir(t, 0) && CanCreate(t, d, n) && NulFree(n) && itype in {INODE_FILE, INODE_DIR}
    ensures Extends(t, Create(t, d, n, itype), d, FreeFrom(t, 0))
    ensures Create(t, d, n, itype)[FreeFrom(t, 0)] == NewInode(n, itype, d)
  {
    FreeFromIsFirst(t, 0);
    NewInodeName(n, itype, d);
    LinkedExtends(t, Create(t, d, n, itype), d, FreeFrom(t, 0));
  }

  lemma LinkedExtends(t: Table, t': Table, d: nat, idx: nat)
    requires IsDir(t, d) && t[d].numEntries < MAX_DIR_ENTRIES && 0 < idx < MAX_INODES && !Used(t, idx)
    requires t'[d] == Link(t[d], idx) && forall i :: 0 <= i < MAX_INODES && i != d && i != idx ==> t'[i] == t[i]
    requires var i := t'[idx];
             i.parent == d && i.itype in {INODE_FILE, INODE_DIR} && i.size <= MAX_FILE_SIZE && i.numEntries == 0 && 0 in i.name
    ensures Extends(t, t', d, idx)
  {
    assert forall i :: Used(t', i) <==> Used(t, i) || i == idx;
    assert forall e, k :: Lists(t', e, k) <==> Lists(t, e, k) || (e == d && k == t[d].numEntries);
    assert forall e, k :: Lists(t, e, k) ==> Child(t', e, k) == Child(t, e, k);
  }

  lemma ExtendedTree(t: Table, t': Table, d: nat, idx: nat)
    requires IsTree(t) && Extends(t, t', d, idx)
    ensures IsTree(t')
  {
    forall i | Used(t', i) && i != 0 ensures ListedBy(t', t'[i].parent, i) {
      if i == idx {
        assert Lists(t', d, t[d].numEntries);
      } else {
        var p := t[i].parent;
        assert ListedBy(t, p, i);
        var k :| Lists(t, p, k) && Child(t, p, k) == i;
        assert Lists(t', p, k) && Child(t', p, k) == i;
      }
    }
    forall i | Used(t', i) ensures Reaches(t', i) {
      var j := if i == idx then d else i;
      assert Reaches(t, j);
      var m: nat :| Rooted(t, j, m);
      RootedKept(t, t', j, m);
      assert i == idx ==> Rooted(t', idx, m + 1);
    }
  }

  lemma CreateKeepsTree(t: Table, d: nat, n: seq<Byte>, itype: Word)
    requires IsTree(t) && CanCreate(t, d, n) && NulFree(n) && itype in {INODE_FILE, INODE_DIR}
    ensures IsTree(Create(t, d, n, itype))
    ensures SizesFit(t) ==> SizesFit(Create(t, d, n, itype))
  {
    CreateExtends(t, d, n, itype);
    ExtendedTree(t, Create(t, d, n, itype), d, FreeFrom(t, 0));
  }

  lemma ExtendedUnique(t: Table, t': Table, d: nat, idx: nat)
    requires UniqueNames(t) && Extends(t, t', d, idx)
    requires forall e, k :: Lists(t, e, k) ==> Used(t, Child(t, e, k))
    ensures UniqueNames(t') <==> Find(t, d, NameOf(t'[idx])) == -1
  {
    var n, last := NameOf(t'[idx]), t[d].numEntries;
    FindFromSound(t, d, n, 0);
    assert Lists(t', d, last);
    if Find(t, d, n) != -1 {
      var k :| Lists(t, d, k) && Child(t, d, k) == Find(t, d, n);
      assert Lists(t', d, k);
    } else {
      forall e, k, l | Lists(t', e, k) && Lists(t', e, l) && k != l
        ensures NameOf(t'[Child(t', e, k)]) != NameOf(t'[Child(t', e, l)])
      {
        assert Lists(t, e, k) ==> NameOf(t'[Child(t', e, k)]) == NameOf(t[Child(t, e, k)]);
        assert Lists(t, e, l) ==> NameOf(t'[Child(t', e, l)]) == NameOf(t[Child(t, e, l)]);
        assert Lists(t, e, k) || Lists(t, e, l);
      }
    }
  }

  /** Sibling names stay unique exactly when no sibling already has the name that gets stored. For a
      name of at most 31 bytes that is the duplicate check the code makes. */
  lemma CreateKeepsUnique(t: Table, d: nat, n: seq<Byte>, itype: Word)
    requires IsTree(t) && UniqueNames(t) && CanCreate(t, d, n) && NulFree(n) && itype in {INODE_FILE, INODE_DIR}
    ensures UniqueNames(Create(t, d, n, itype)) <==> Find(t, d, Stored(n)) == -1
    ensures |n| < MAX_FILENAME ==> UniqueNames(Create(t, d, n, itype))
  {
    TreeEntries(t);
    CreateUniqueIff(t, d, n, itype);
    if |n| < MAX_FILENAME { assert Stored(n) == n; }
  }

  lemma TreeEntries(t: Table)
    requires IsTree(t)
    ensures forall e, k :: Lists(t, e, k) ==> Used(t, Child(t, e, k))
  {
  }

  lemma CreateUniqueIff(t: Table, d: nat, n: seq<Byte>, itype: Word)
    requires IsDir(t, 0) && UniqueNames(t) && CanCreate(t, d, n) && NulFree(n) && itype in {INODE_FILE, INODE_DIR}
    requires forall e, k :: Lists(t, e, k) ==> Used(t, Child(t, e, k))
    ensures UniqueNames(Create(t, d, n, itype)) <==> Find(t, d, Stored(n)) == -1
  {
    CreateExtends(t, d, n, itype);
    NewInodeName(n, itype, d);
    ExtendedUnique(t, Create(t, d, n, itype), d, FreeFrom(t, 0));
  }

  /** Directories only grow at the end and the scan takes the first match: a name that was found keeps its
      answer, and otherwise only the new inode can be found. */
  lemma {:induction false} ExtendedFindFrom(t: Table, t': Table, d: nat, idx: nat, e: nat, n: seq<Byte>, k: nat)
    requires Extends(t, t', d, idx) && IsDir(t, e) && k <= t[e].numEntries <= MAX_DIR_ENTRIES
    requires forall j :: Lists(t, e, j) ==> Used(t, Child(t, e, j))
    ensures FindFrom(t', e, n, k) ==
      if FindFrom(t, e, n, k) != -1 then FindFrom(t, e, n, k)
      else if e == d && n == NameOf(t'[idx]) then idx else -1
    decreases MAX_DIR_ENTRIES - k
  {
    if k < t[e].numEntries {
      assert Lists(t, e, k);
      assert Lists(t', e, k) && Child(t', e, k) == Child(t, e, k);
      var c := Child(t, e, k);
      assert NameOf(t'[c]) == NameOf(t[c]);
      if NameOf(t[c]) != n {
        ExtendedFindFrom(t, t', d, idx, e, n, k + 1);
      }
    } else if e == d {
      assert Lists(t', d, t[d].numEntries);
    }
  }

  lemma ExtendedFind(t: Table, t': Table, d: nat, idx: nat, e: nat, n: seq<Byte>)
    requires Extends(t, t', d, idx) && IsDir(t, e) && t[e].numEntries <= MAX_DIR_ENTRIES
    requires forall i, j :: Lists(t, i, j) ==> Used(t, Child(t, i, j))
    ensures Find(t', e, n) ==
      if Find(t, e, n) != -1 then Find(t, e, n) else if e == d && n == NameOf(t'[idx]) then idx else -1
  {
    assert Used(t, e);
    ExtendedFindFrom(t, t', d, idx, e, n, 0);
  }

  lemma TreeBounded(t: Table)
    requires IsTree(t)
    ensures forall d :: IsDir(t, d) ==> t[d].numEntries <= MAX_DIR_ENTRIES
  {
  }

  /** After a successful creation the name as stored leads to the new inode unless it was taken, and every
      other lookup, in this or any other directory, answers as before. A name of at most 31 bytes is stored
      whole and was not taken, so it leads to the new inode. */
  lemma CreateThenFind(t: Table, d: nat, n: seq<Byte>, itype: Word)
    requires IsTree(t) && CanCreate(t, d, n) && NulFree(n) && itype in {INODE_FILE, INODE_DIR}
    ensures forall e: nat, m :: IsDir(t, e) ==>
              Find(Create(t, d, n, itype), e, m) ==
                if Find(t, e, m) != -1 then Find(t, e, m)
                else if e == d && m == Stored(n) then FreeFrom(t, 0) else -1
    ensures |n| < MAX_FILENAME ==> Find(Create(t, d, n, itype), d, n) == FreeFrom(t, 0)
  {
    var t' := Create(t, d, n, itype);
    TreeEntries(t);
    TreeBounded(t);
    CreateExtends(t, d, n, itype);
    NewInodeName(n, itype, d);
    forall e: nat, m | IsDir(t, e)
      ensures Find(t', e, m) ==
        if Find(t, e, m) != -1 then Find(t, e, m) else if e == d && m == Stored(n) then FreeFrom(t, 0) else -1
    {
      ExtendedFind(t, t', d, FreeFrom(t, 0), e, m);
    }
    if |n| < MAX_FILENAME { assert Stored(n) == n; }
  }

  // ----- writing file contents does not touch the tree

  ghost predicate SameTree(t: Table, t': Table) {
    forall i :: 0 <= i < MAX_INODES ==>
      && t'[i].name == t[i].name && t'[i].itype == t[i].itype && t'[i].parent == t[i].parent
      && t'[i].numEntries == t[i].numEntries && t'[i].entries == t[i].entries
  }

  lemma SameTreeLists(t: Table, t': Table)
    requires SameTree(t, t')
    ensures forall i :: Used(t', i) <==> Used(t, i)
    ensures forall i :: IsDir(t', i) <==> IsDir(t, i)
    ensures forall d, k :: Lists(t', d, k) <==> Lists(t, d, k)
    ensures forall d, k :: Lists(t, d, k) ==> Child(t', d, k) == Child(t, d, k)
    ensures UniqueNames(t) ==> UniqueNames(t')
  {
  }

  lemma SameTreeKeepsTree(t: Table, t': Table)
    requires IsTree(t) && SameTree(t, t')
    ensures IsTree(t')
  {
    SameTreeLists(t, t');
    forall i | Used(t', i) && i != 0 ensures ListedBy(t', t'[i].parent, i) {
      assert ListedBy(t, t[i].parent, i);
      var k :| Lists(t, t[i].parent, k) && Child(t, t[i].parent, k) == i;
      assert Lists(t', t[i].parent, k);
    }
    forall i | Used(t', i) ensures Reaches(t', i) {
      assert Reaches(t, i);
      var n: nat :| Rooted(t, i, n);
      RootedKept(t, t', i, n);
    }
  }

  lemma {:induction false} SameTreeFind(t: Table, t': Table, d: nat, n: seq<Byte>, k: nat)
    requires SameTree(t, t') && d < MAX_INODES
    ensures FindFrom(t', d, n, k) == FindFrom(t, d, n, k)
    decreases MAX_DIR_ENTRIES - k
  {
    if k < MAX_DIR_ENTRIES {
      SameTreeFind(t, t', d, n, k + 1);
    }
  }
}
