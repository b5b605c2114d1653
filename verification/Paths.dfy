/** Parent chains, the path `vfs_pwd` prints, and walking it again with `vfs_cd`. */
module Paths {
  import opened Machine
  import opened InodeLayout
  import opened FileTree

  const DOT_DOT: seq<Byte> := [46, 46]
  const SLASH: seq<Byte> := [47]

  /** The inodes from `i` up to the root. */
  ghost function Chain(t: Table, i: nat, n: nat): (c: seq<nat>)
    requires Rooted(t, i, n)
    ensures |c| == n + 1
    decreases n
  {
    if n == 0 then [0] else [i] + Chain(t, t[i].parent, n - 1)
  }

  lemma {:induction false} RootedOnce(t: Table, i: nat, n: nat, m: nat)
    requires Rooted(t, i, n) && Rooted(t, i, m)
    ensures n == m
    decreases n
  {
    if n > 0 {
      RootedOnce(t, t[i].parent, n - 1, m - 1);
    }
  }

  lemma {:induction false} ChainRooted(t: Table, i: nat, n: nat, k: nat)
    requires Rooted(t, i, n) && k <= n
    ensures Rooted(t, Chain(t, i, n)[k], n - k)
    decreases n
  {
    if k > 0 {
      ChainRooted(t, t[i].parent, n - 1, k - 1);
    }
  }

  lemma {:induction false} Pigeonhole(s: seq<nat>, bound: nat)
    requires forall k :: 0 <= k < |s| ==> s[k] < bound
    requires forall k, l :: 0 <= k < l < |s| ==> s[k] != s[l]
    ensures |s| <= bound
    decreases bound
  {
    if s != [] {
      assert s[0] < bound;
      if k :| 0 <= k < |s| && s[k] == bound - 1 {
        Pigeonhole(s[..k] + s[k + 1..], bound - 1);
      } else {
        Pigeonhole(s, bound - 1);
      }
    }
  }

  lemma ChainInRange(t: Table, i: nat, n: nat)
    requires Rooted(t, i, n)
    ensures forall k :: 0 <= k <= n ==> Chain(t, i, n)[k] < MAX_INODES
  {
    forall k | 0 <= k <= n ensures Chain(t, i, n)[k] < MAX_INODES {
      ChainRooted(t, i, n, k);
    }
  }

  lemma ChainDistinct(t: Table, i: nat, n: nat, k: nat, l: nat)
    requires Rooted(t, i, n) && k < l <= n
    ensures Chain(t, i, n)[k] != Chain(t, i, n)[l]
  {
    var c := Chain(t, i, n);
    ChainRooted(t, i, n, k);
    ChainRooted(t, i, n, l);
    if c[k] == c[l] {
      RootedOnce(t, c[k], n - k, n - l);
    }
  }

  /** A parent chain visits no inode twice, so the 32 slots of `path[]` suffice. */
  lemma DepthBound(t: Table, i: nat, n: nat)
    requires Rooted(t, i, n)
    ensures n + 1 <= MAX_INODES
  {
    var c := Chain(t, i, n);
    ChainInRange(t, i, n);
    forall k, l | 0 <= k < l < |c| ensures c[k] != c[l] {
      ChainDistinct(t, i, n, k, l);
    }
    Pigeonhole(c, MAX_INODES);
  }

  /** The names below the root on the way down to `i`. */
  ghost function Names(t: Table, i: nat, n: nat): (ns: seq<seq<Byte>>)
    requires Rooted(t, i, n)
    ensures |ns| == n
    decreases n
  {
    if n == 0 then [] else Names(t, t[i].parent, n - 1) + [NameOf(t[i])]
  }

  /** What the print loop of `vfs_pwd` writes for a collected chain, root last. */
  function Printed(t: Table, chain: seq<nat>): seq<Byte>
    requires forall k :: 0 <= k < |chain| ==> chain[k] < MAX_INODES
  {
    if chain == [] then [] else Printed(t, chain[1..]) + SLASH + NameOf(t[chain[0]])
  }

  /** Every name from `i` up to the root ends within its field. */
  ghost predicate NamesEnd(t: Table, i: nat, n: nat)
    requires Rooted(t, i, n)
  {
    forall k :: 0 <= k <= n ==> Chain(t, i, n)[k] < MAX_INODES && 0 in t[Chain(t, i, n)[k]].name
  }

  /** Every name with a slash before it. */
  function Slashed(names: seq<seq<Byte>>): seq<Byte> {
    if names == [] then [] else Slashed(names[..|names| - 1]) + [47] + names[|names| - 1]
  }

  /** `vfs_pwd` prints the root's slash and name, then every name below it after a slash of its own. */
  lemma {:induction false} PrintedPath(t: Table, i: nat, n: nat)
    requires Rooted(t, i, n)
    ensures forall k :: 0 <= k <= n ==> Chain(t, i, n)[k] < MAX_INODES
    ensures Printed(t, Chain(t, i, n)) == [47] + NameOf(t[0]) + Slashed(Names(t, i, n))
    decreases n
  {
    ChainInRange(t, i, n);
    var c := Chain(t, i, n);
    if n == 0 {
      assert Printed(t, c) == SLASH + NameOf(t[0]);
    } else {
      var p := t[i].parent;
      PrintedPath(t, p, n - 1);
      assert c[1..] == Chain(t, p, n - 1);
      SlashedSnoc(Names(t, p, n - 1), NameOf(t[i]));
      Regroup(SLASH + NameOf(t[0]), Slashed(Names(t, p, n - 1)), SLASH, NameOf(t[i]));
    }
  }

  lemma SlashedSnoc(names: seq<seq<Byte>>, p: seq<Byte>)
    ensures Slashed(names + [p]) == Slashed(names) + SLASH + p
  {
    assert (names + [p])[..|names|] == names;
  }

  lemma Regroup(a: seq<Byte>, b: seq<Byte>, c: seq<Byte>, d: seq<Byte>)
    ensures a + b + c + d == a + (b + c + d)
  {
  }

  /** The pieces of a text between its slashes. */
  function Components(s: seq<Byte>): (cs: seq<seq<Byte>>)
    ensures cs != []
  {
    if s == [] then [[]]
    else
      var (cs, c) := (Components(s[..|s| - 1]), s[|s| - 1]);
      if c == 47 then cs + [[]] else cs[..|cs| - 1] + [cs[|cs| - 1] + [c]]
  }

  lemma {:induction false} ComponentsSnoc(s: seq<Byte>, name: seq<Byte>)
    requires 47 !in name
    ensures Components(s + [47] + name) == Components(s) + [name]
    decreases |name|
  {
    var all := s + [47] + name;
    if name == [] {
      assert all[..|all| - 1] == s;
    } else {
      var last := |name| - 1;
      assert all[..|all| - 1] == s + [47] + name[..last];
      ComponentsSnoc(s, name[..last]);
      assert name == name[..last] + [name[last]];
      assert (Components(s) + [name[..last]])[..|Components(s)|] == Components(s);
    }
  }

  /** The printed path gives every name back, if none holds a slash. */
  lemma {:induction false} PrintedComponents(root: seq<Byte>, names: seq<seq<Byte>>)
    requires 47 !in root && forall p :: p in names ==> 47 !in p
    ensures Components([47] + root + Slashed(names)) == [[], root] + names
    decreases |names|
  {
    if names == [] {
      assert [47] + root + [] == [] + [47] + root;
      ComponentsSnoc([], root);
    } else {
      var front, last := names[..|names| - 1], names[|names| - 1];
      assert forall p :: p in front ==> p in names;
      PrintedComponents(root, front);
      Regroup([47] + root, Slashed(front), [47], last);
      ComponentsSnoc([47] + root + Slashed(front), last);
      assert [[], root] + names == [[], root] + front + [last];
    }
  }

  // ----- vfs_cd

  /** The current directory after `vfs_cd(p)`, and its answer. */
  function Cd(t: Table, cwd: nat, p: seq<Byte>): (nat, int) {
    if p == DOT_DOT then
      (if cwd != 0 && cwd < MAX_INODES then t[cwd].parent else cwd, 0)
    else if p == SLASH then
      (0, 0)
    else
      var i := Find(t, cwd, p);
      if IsDir(t, i) then (i, 0) else (cwd, -1)
  }

  /** `vfs_cd` to "/" and then through `names`, one after the other, wherever `from` the walk starts. */
  function Replay(t: Table, from: nat, names: seq<seq<Byte>>): nat {
    if names == [] then Cd(t, from, [47]).0 else Cd(t, Replay(t, from, names[..|names| - 1]), names[|names| - 1]).0
  }

  lemma ReplayNone(t: Table, from: nat)
    ensures Replay(t, from, []) == 0
  {
  }

  predicate Special(p: seq<Byte>) {
    p == [46, 46] || p == [47]
  }

  /** `vfs_cd` always ends in a directory of the tree, at most one level further down; at most the
      same level for ".." and "/". */
  lemma CdDepth(t: Table, cwd: nat, p: seq<Byte>, n: nat) returns (m: nat)
    requires Walkable(t) && IsDir(t, cwd) && Rooted(t, cwd, n)
    ensures IsDir(t, Cd(t, cwd, p).0) && Rooted(t, Cd(t, cwd, p).0, m)
    ensures m <= if Special(p) then n else n + 1
  {
    m := n;
    if p == DOT_DOT {
      if cwd != 0 {
        assert StepsUp(t, cwd);
        m := n - 1;
      }
    } else if p == SLASH {
      assert Rooted(t, 0, 0);
      m := 0;
    } else if IsDir(t, Find(t, cwd, p)) {
      m := n + 1;
    }
  }

  lemma {:induction false} ReplayDepth(t: Table, from: nat, names: seq<seq<Byte>>) returns (m: nat)
    requires Walkable(t)
    ensures IsDir(t, Replay(t, from, names)) && Rooted(t, Replay(t, from, names), m)
    ensures m <= |names|
    ensures (exists p :: p in names && Special(p)) ==> m < |names|
    decreases |names|
  {
    if names == [] {
      m := 0;
    } else {
      var k := |names| - 1;
      var m' := ReplayDepth(t, from, names[..k]);
      m := CdDepth(t, Replay(t, from, names[..k]), names[k], m');
      assert names == names[..k] + [names[k]];
    }
  }

  lemma ReplaySnoc(t: Table, from: nat, names: seq<seq<Byte>>, p: seq<Byte>)
    ensures Replay(t, from, names + [p]) == Cd(t, Replay(t, from, names), p).0
  {
    assert (names + [p])[..|names|] == names;
  }

  lemma ReplayStep(t: Table, from: nat, i: nat, n: nat)
    requires Rooted(t, i, n) && n > 0
    ensures Replay(t, from, Names(t, i, n)) == Cd(t, Replay(t, from, Names(t, t[i].parent, n - 1)), NameOf(t[i])).0
  {
    ReplaySnoc(t, from, Names(t, t[i].parent, n - 1), NameOf(t[i]));
  }
}
