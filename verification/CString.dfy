/** The C string and memory loops of the kernel. A C string is a byte sequence holding a NUL. */
module CString {
  import opened Machine

  function Min(a: int, b: int): int {
    if a < b then a else b
  }

  /** The string stored in `s`: its bytes before the first NUL. */
  function UpToNul(s: seq<Byte>): seq<Byte> {
    if s == [] || s[0] == 0 then [] else [s[0]] + UpToNul(s[1..])
  }

  predicate NulFree(s: seq<Byte>) {
    0 !in s
  }

  function Zeros(n: nat): (z: seq<Byte>)
    ensures |z| == n
  {
    seq(n, _ => 0)
  }

  /** `UpToNul` is the longest NUL-free prefix. */
  lemma {:induction false} UpToNulIsPrefix(s: seq<Byte>)
    ensures UpToNul(s) <= s && NulFree(UpToNul(s))
    ensures forall k :: 0 <= k < |UpToNul(s)| ==> s[k] == UpToNul(s)[k] != 0
    ensures |UpToNul(s)| < |s| ==> s[|UpToNul(s)|] == 0
    ensures 0 in s ==> |UpToNul(s)| < |s|
  {
    if s != [] && s[0] != 0 {
      UpToNulIsPrefix(s[1..]);
    }
  }

  /** A NUL-free prefix followed by NUL is the stored string. */
  lemma {:induction false} UpToNulOf(n: seq<Byte>, rest: seq<Byte>)
    requires NulFree(n) && (rest == [] || rest[0] == 0)
    ensures UpToNul(n + rest) == n
  {
    if n == [] {
      assert n + rest == rest;
    } else {
      assert (n + rest)[1..] == n[1..] + rest;
      UpToNulOf(n[1..], rest);
    }
  }

  method StrLen(s: seq<Byte>) returns (len: nat)
    requires 0 in s
    ensures len == |UpToNul(s)|
  {
    UpToNulIsPrefix(s);
    len := 0;
    while s[len] != 0
      invariant len <= |UpToNul(s)| < |s|
      decreases |s| - len
    {
      assert len < |UpToNul(s)|;
      len := len + 1;
    }
  }

  /** The difference of the first bytes at which the two strings differ, NUL included. */
  method StrCmp(s1: seq<Byte>, s2: seq<Byte>) returns (diff: int)
    requires 0 in s1 && 0 in s2
    ensures diff == 0 <==> UpToNul(s1) == UpToNul(s2)
    ensures exists k :: 0 <= k < |s1| && k < |s2| && s1[..k] == s2[..k] && NulFree(s1[..k])
                        && (s1[k] == 0 || s1[k] != s2[k]) && diff == s1[k] as int - s2[k] as int
  {
    UpToNulIsPrefix(s1);
    UpToNulIsPrefix(s2);
    ghost var u1, u2 := UpToNul(s1), UpToNul(s2);
    var i := 0;
    while s1[i] != 0 && s1[i] == s2[i]
      invariant i <= |u1| && i <= |u2| && u1[..i] == u2[..i]
      decreases |s1| - i
    {
      assert i < |u1| && i < |u2|;
      i := i + 1;
    }
    assert s1[..i] == u1[..i] && s2[..i] == u2[..i];
    diff := s1[i] as int - s2[i] as int;
  }

  /** What `strncpy(dest, src, n)` leaves in `dest`: a source shorter than `n` is followed by zeros up to
      and including position `n`, one byte more than the C standard writes. */
  function StrNCpyResult(dest: seq<Byte>, src: seq<Byte>, n: nat): seq<Byte>
    requires |dest| >= (if |src| < n then n + 1 else n)
  {
    if |src| < n then src + Zeros(n + 1 - |src|) + dest[n + 1..] else src[..n] + dest[n..]
  }

  /** Byte by byte: the source up to `n` bytes; behind a shorter source zeros up to position `n` itself; and
      behind that what was there. */
  lemma StrNCpyBytes(dest: seq<Byte>, src: seq<Byte>, n: nat, k: nat)
    requires |dest| >= (if |src| < n then n + 1 else n) && k < |dest|
    ensures |StrNCpyResult(dest, src, n)| == |dest|
    ensures StrNCpyResult(dest, src, n)[k] ==
      if k < n && k < |src| then src[k] else if |src| < n && k <= n then 0 else dest[k]
  {
  }

  method StrNCpy(dest: array<Byte>, src: seq<Byte>, n: nat)
    requires 0 in src
    requires dest.Length >= (if |UpToNul(src)| < n then n + 1 else n)
    modifies dest
    ensures dest[..] == StrNCpyResult(old(dest[..]), UpToNul(src), n)
  {
    UpToNulIsPrefix(src);
    ghost var u := UpToNul(src);
    var d, left := 0, n;
    var stopped := false;
    while left != 0 && !stopped
      invariant 0 <= d <= dest.Length
      invariant !stopped ==> left == n - d && d <= |u|
      invariant stopped ==> |u| < n && d == |u| + 1 && left == n - |u|
      invariant forall k :: 0 <= k < d ==> dest[k] == if k < |u| then u[k] else 0
      invariant forall k :: d <= k < dest.Length ==> dest[k] == old(dest[k])
      decreases !stopped, left
    {
      dest[d] := src[d];
      d := d + 1;
      if src[d - 1] == 0 {
        stopped := true;
      } else {
        left := left - 1;
      }
    }
    ghost var total := d + left;
    while left != 0
      invariant 0 <= left && d + left == total <= dest.Length
      invariant forall k :: 0 <= k < d ==> dest[k] == if k < |u| then u[k] else 0
      invariant forall k :: d <= k < dest.Length ==> dest[k] == old(dest[k])
      decreases left
    {
      dest[d] := 0;
      d := d + 1;
      left := left - 1;
    }
  }

  method MemSet(dest: array<Byte>, off: nat, c: Byte, n: nat)
    requires off + n <= dest.Length
    modifies dest
    ensures dest[..] == old(dest[..off]) + seq(n, _ => c) + old(dest[off + n..])
  {
    var p, left := off, n;
    while left != 0
      invariant p + left == off + n && off <= p && 0 <= left
      invariant forall k :: 0 <= k < dest.Length ==> dest[k] == if off <= k < p then c else old(dest[k])
    {
      dest[p] := c;
      p, left := p + 1, left - 1;
    }
  }

  /** `memory` with `bytes` stored at `off`. */
  function Splice(memory: seq<Byte>, off: nat, bytes: seq<Byte>): (r: seq<Byte>)
    requires off + |bytes| <= |memory|
    ensures |r| == |memory|
  {
    memory[..off] + bytes + memory[off + |bytes|..]
  }

  /** Inside the stored range the new bytes, outside the old ones. */
  lemma SpliceBytes(memory: seq<Byte>, off: nat, bytes: seq<Byte>, k: nat)
    requires off + |bytes| <= |memory| && k < |memory|
    ensures Splice(memory, off, bytes)[k] == if off <= k < off + |bytes| then bytes[k - off] else memory[k]
  {
  }

  method MemCpy(dest: array<Byte>, off: nat, src: seq<Byte>, from: nat, n: nat)
    requires off + n <= dest.Length && from + n <= |src|
    modifies dest
    ensures dest[..] == Splice(old(dest[..]), off, src[from..from + n])
  {
    for i := 0 to n
      invariant forall k :: 0 <= k < dest.Length ==>
        dest[k] == if off <= k < off + i then src[from + k - off] else old(dest[k])
    {
      dest[off + i] := src[from + i];
    }
  }
}
