/** The kernel heap as a list of blocks: what `kmalloc` and `kfree` do to it, and what follows
    for every history of calls. Addresses and sizes are in bytes. */
module BlockList {
  import opened Machine

  const HEAP_START: int := 0x100000
  const HEAP_SIZE: int := 0x400000
  const HEAP_END: int := 0x500000  // HEAP_START + HEAP_SIZE
  const HEADER: int := 12  // sizeof(kblock_t): size, free, next

  datatype Block = Block(addr: nat, size: nat, free: bool) {
    function Payload(): nat { addr + HEADER }
    function End(): nat { addr + HEADER + size }
  }

  /** Where block `k` has to end: at the next block, or at the end of the tiled range. */
  function EndOf(bs: seq<Block>, k: nat, hi: nat): nat
    requires k < |bs|
  {
    if k + 1 < |bs| then bs[k + 1].addr else hi
  }

  /** The blocks, header and payload, cover [lo, hi) without gap or overlap. */
  ghost predicate Tiles(bs: seq<Block>, lo: nat, hi: nat) {
    && bs != []
    && bs[0].addr == lo
    && forall k {:trigger EndOf(bs, k, hi)} :: 0 <= k < |bs| ==> bs[k].End() == EndOf(bs, k, hi)
  }

  ghost predicate Aligned(bs: seq<Block>) {
    forall b :: b in bs ==> b.addr % 4 == 0 && b.size % 4 == 0
  }

  ghost predicate Positive(bs: seq<Block>) {
    forall b :: b in bs ==> b.size > 0
  }

  /** No two neighbours among the first `n` blocks are both free. */
  ghost predicate CoalescedTo(bs: seq<Block>, n: int) {
    forall i, j :: 0 <= i < n && j == i + 1 && j < |bs| && j < n ==> !(bs[i].free && bs[j].free)
  }

  ghost predicate Coalesced(bs: seq<Block>) {
    CoalescedTo(bs, |bs|)
  }

  /** A well-formed heap: an aligned tiling of the whole range. */
  ghost predicate Heap(bs: seq<Block>) {
    Tiles(bs, HEAP_START, HEAP_END) && Aligned(bs)
  }

  /** The state every call leaves behind. */
  ghost predicate Canonical(bs: seq<Block>) {
    Heap(bs) && Coalesced(bs)
  }

  function Initial(): seq<Block> {
    [Block(HEAP_START, HEAP_SIZE - HEADER, true)]
  }

  // ----- kmalloc

  /** `(size + 7) & ~7` on 32-bit unsigned integers. */
  function Round8(n: Word): Word {
    AddW(n, 7) / 8 * 8
  }

  predicate Fits(b: Block, need: nat) {
    b.free && b.size >= need
  }

  /** The first block from `k` on that fits, or the length of the list. */
  function FirstFit(bs: seq<Block>, need: nat, k: nat): nat
    requires k <= |bs|
    decreases |bs| - k
  {
    if k == |bs| || Fits(bs[k], need) then k else FirstFit(bs, need, k + 1)
  }

  /** Take block `k`, splitting off the rest when it can hold a header and a byte. */
  function Carve(bs: seq<Block>, k: nat, need: nat): seq<Block>
    requires k < |bs|
  {
    var b := bs[k];
    if b.size > need + HEADER then
      bs[..k] + [Block(b.addr, need, false), Block(b.addr + HEADER + need, b.size - need - HEADER, true)] + bs[k + 1..]
    else
      bs[k := b.(free := false)]
  }

  /** The list and the pointer (0 for NULL) after `kmalloc(n)`. */
  function Malloc(bs: seq<Block>, n: Word): (seq<Block>, nat) {
    var k := FirstFit(bs, Round8(n), 0);
    if n == 0 || k >= |bs| then (bs, 0) else (Carve(bs, k, Round8(n)), bs[k].Payload())
  }

  // ----- kfree

  /** Join block `k` and its right neighbour. */
  function Merge(bs: seq<Block>, k: nat): seq<Block>
    requires k + 1 < |bs|
  {
    bs[..k] + [Block(bs[k].addr, bs[k].size + HEADER + bs[k + 1].size, bs[k].free)] + bs[k + 2..]
  }

  /** The coalescing pass, from block `k` on. */
  function Coalesce(bs: seq<Block>, k: nat): seq<Block>
    decreases |bs| - k
  {
    if k + 1 >= |bs| then bs
    else if bs[k].free && bs[k + 1].free then Coalesce(Merge(bs, k), k)
    else Coalesce(bs, k + 1)
  }

  /** Set the free flag of the block whose payload starts at `p`. */
  function MarkFree(bs: seq<Block>, p: nat): seq<Block> {
    seq(|bs|, i requires 0 <= i < |bs| => if bs[i].Payload() == p then bs[i].(free := true) else bs[i])
  }

  function Free(bs: seq<Block>, p: nat): seq<Block> {
    if p == 0 then bs else Coalesce(MarkFree(bs, p), 0)
  }

  // ----- what a client can see: the live blocks

  ghost function Live(bs: seq<Block>): set<Block> {
    set b | b in bs && !b.free
  }

  ghost predicate LivePointer(bs: seq<Block>, p: nat) {
    exists b :: b in Live(bs) && b.Payload() == p
  }

  // ----- order and tiling

  lemma {:induction false} TilesOrdered(bs: seq<Block>, lo: nat, hi: nat, i: nat, j: nat)
    requires Tiles(bs, lo, hi) && i < j < |bs|
    ensures bs[i].End() <= bs[j].addr
    decreases j - i
  {
    assert bs[i].End() == EndOf(bs, i, hi);
    if i + 1 < j {
      TilesOrdered(bs, lo, hi, i + 1, j);
    }
  }

  /** Every block lies in [lo, hi), and blocks follow each other in address order. */
  lemma Ordered(bs: seq<Block>, lo: nat, hi: nat)
    requires Tiles(bs, lo, hi)
    ensures forall i, j :: 0 <= i < j < |bs| ==> bs[i].End() <= bs[j].addr
    ensures forall i :: 0 <= i < |bs| ==> lo <= bs[i].addr && bs[i].End() <= hi
  {
    forall i, j | 0 <= i < j < |bs| ensures bs[i].End() <= bs[j].addr {
      TilesOrdered(bs, lo, hi, i, j);
    }
    forall i | 0 <= i < |bs| ensures lo <= bs[i].addr && bs[i].End() <= hi {
      var last := |bs| - 1;
      assert bs[last].End() == EndOf(bs, last, hi);
      if i < last { TilesOrdered(bs, lo, hi, i, last); }
      if 0 < i { TilesOrdered(bs, lo, hi, 0, i); }
    }
  }

  /** Block `k` lies in [lo, hi). */
  lemma Within(bs: seq<Block>, lo: nat, hi: nat, k: nat)
    requires Tiles(bs, lo, hi) && k < |bs|
    ensures lo <= bs[k].addr && bs[k].End() <= hi
    ensures k + 1 < |bs| ==> bs[k + 1].addr == bs[k].End()
  {
    var last := |bs| - 1;
    assert bs[last].End() == EndOf(bs, last, hi) && bs[k].End() == EndOf(bs, k, hi);
    if k < last { TilesOrdered(bs, lo, hi, k, last); }
    if 0 < k { TilesOrdered(bs, lo, hi, 0, k); }
  }

  lemma TilesTail(bs: seq<Block>, lo: nat, hi: nat)
    requires Tiles(bs, lo, hi) && |bs| > 1
    ensures Tiles(bs[1..], bs[0].End(), hi)
  {
    assert bs[0].End() == EndOf(bs, 0, hi);
    forall k | 0 <= k < |bs[1..]| ensures bs[1..][k].End() == EndOf(bs[1..], k, hi) {
      assert bs[k + 1].End() == EndOf(bs, k + 1, hi);
    }
  }

  // ----- kmalloc keeps the invariant

  lemma FirstFitIsFirst(bs: seq<Block>, need: nat, k: nat)
    requires k <= |bs|
    ensures k <= FirstFit(bs, need, k) <= |bs|
    ensures forall j :: k <= j < FirstFit(bs, need, k) ==> !Fits(bs[j], need)
    ensures FirstFit(bs, need, k) < |bs| ==> Fits(bs[FirstFit(bs, need, k)], need)
    decreases |bs| - k
  {
  }

  lemma CarveTiles(bs: seq<Block>, k: nat, need: nat, lo: nat, hi: nat)
    requires Tiles(bs, lo, hi) && k < |bs| && Fits(bs[k], need)
    ensures Tiles(Carve(bs, k, need), lo, hi)
  {
    var cs := Carve(bs, k, need);
    assert bs[k].End() == EndOf(bs, k, hi);
    if bs[k].size > need + HEADER {
      forall i | 0 <= i < |cs| ensures cs[i].End() == EndOf(cs, i, hi) {
        if i < k {
          assert bs[i].End() == EndOf(bs, i, hi);
        } else if i > k + 1 {
          assert cs[i] == bs[i - 1];
          assert bs[i - 1].End() == EndOf(bs, i - 1, hi);
        }
      }
    } else {
      forall i | 0 <= i < |cs| ensures cs[i].End() == EndOf(cs, i, hi) {
        assert bs[i].End() == EndOf(bs, i, hi);
      }
    }
  }

  /** The blocks `Carve` puts in the place of block `k`. */
  lemma CarveMembers(bs: seq<Block>, k: nat, need: nat)
    requires k < |bs| && Fits(bs[k], need)
    ensures var b, cs := bs[k], Carve(bs, k, need);
            && |bs| <= |cs| && cs[..k] == bs[..k] && cs[k + 1 + |cs| - |bs|..] == bs[k + 1..]
            && cs[k].addr == b.addr && !cs[k].free && need <= cs[k].size <= need + HEADER
            && (|cs| > |bs| ==>
                  && |cs| == |bs| + 1 && cs[k].size == need && cs[k + 1].free
                  && cs[k + 1].addr == b.addr + HEADER + need && cs[k + 1].size == b.size - need - HEADER > 0)
            && (|cs| == |bs| ==> cs[k].size == b.size)
  {
  }

  /** Where a block of the old list stands in the new one; its link does not change. */
  lemma CarveKeeps(bs: seq<Block>, k: nat, need: nat, j: nat) returns (i: nat)
    requires k < |bs| && Fits(bs[k], need)
    requires var cs := Carve(bs, k, need); j < |cs| && (j < k || j > k + |cs| - |bs|)
    ensures i < |bs| && i != k && i == (if j < k then j else j - (|Carve(bs, k, need)| - |bs|))
    ensures Carve(bs, k, need)[j] == bs[i]
    ensures forall hi: nat :: EndOf(Carve(bs, k, need), j, hi) == EndOf(bs, i, hi)
  {
    i := if j < k then j else j - (|Carve(bs, k, need)| - |bs|);
  }

  lemma CarveCoalesced(bs: seq<Block>, k: nat, need: nat)
    requires Coalesced(bs) && k < |bs| && Fits(bs[k], need)
    ensures Coalesced(Carve(bs, k, need))
  {
    var cs := Carve(bs, k, need);
    var d := |cs| - |bs|;
    CarveMembers(bs, k, need);
    forall i, j | 0 <= i < |cs| && j == i + 1 && j < |cs| ensures !(cs[i].free && cs[j].free) {
      if j < k || i > k + d {
        var i' := CarveKeeps(bs, k, need, i);
        var j' := CarveKeeps(bs, k, need, j);
      } else if i == k + d {
        var j' := CarveKeeps(bs, k, need, j);
        assert bs[k].free && j' == k + 1;
      }
    }
  }

  lemma CarveAligned(bs: seq<Block>, k: nat, need: nat)
    requires Aligned(bs) && k < |bs| && Fits(bs[k], need) && need % 4 == 0
    ensures Aligned(Carve(bs, k, need))
  {
    var cs := Carve(bs, k, need);
    assert bs[k] in bs;
    forall b | b in cs ensures b.addr % 4 == 0 && b.size % 4 == 0 {
      if |cs| > |bs| && b == cs[k + 1] {
        RestAligned(bs[k].addr, bs[k].size, need);
      } else {
        assert b in bs || b == cs[k];
      }
    }
  }

  lemma RestAligned(addr: nat, size: nat, need: nat)
    requires addr % 4 == 0 && size % 4 == 0 && need % 4 == 0
    ensures (addr + HEADER + need) % 4 == 0 && (size - need - HEADER) % 4 == 0
  {
    var a, s, d := addr / 4, size / 4, need / 4;
    assert addr + HEADER + need == 4 * (a + 3 + d);
    assert size - need - HEADER == 4 * (s - d - 3);
  }

  lemma CarvePositive(bs: seq<Block>, k: nat, need: nat)
    requires Positive(bs) && k < |bs| && Fits(bs[k], need) && need > 0
    ensures Positive(Carve(bs, k, need))
  {
    var cs := Carve(bs, k, need);
    assert bs[k] in bs;
    forall b | b in cs ensures b.size > 0 {
      assert b in bs || b == cs[k] || (|cs| > |bs| && b == cs[k + 1]);
    }
  }

  lemma CarveCanonical(bs: seq<Block>, k: nat, need: nat)
    requires Canonical(bs) && k < |bs| && Fits(bs[k], need) && need % 4 == 0
    ensures Canonical(Carve(bs, k, need))
  {
    CarveTiles(bs, k, need, HEAP_START, HEAP_END);
    CarveAligned(bs, k, need);
    CarveCoalesced(bs, k, need);
  }

  /** Allocating adds exactly one live block and touches no other live block. */
  lemma CarveLive(bs: seq<Block>, k: nat, need: nat)
    requires k < |bs| && Fits(bs[k], need)
    ensures Live(Carve(bs, k, need)) == Live(bs) + {Carve(bs, k, need)[k]}
  {
    var cs := Carve(bs, k, need);
    CarveMembers(bs, k, need);
    forall b | b in Live(bs) ensures b in Live(cs) {
      var i :| 0 <= i < |bs| && bs[i] == b;
      assert i != k;
      assert b == if i < k then cs[..k][i] else cs[k + 1 + |cs| - |bs|..][i - k - 1];
    }
    forall b | b in Live(cs) ensures b in Live(bs) + {cs[k]} {
      var i :| 0 <= i < |cs| && cs[i] == b;
      var d := |cs| - |bs|;
      if i < k {
        assert b == bs[..k][i];
      } else if i > k + d {
        assert b == bs[k + 1..][i - k - 1 - d];
      }
    }
  }

  // ----- kfree keeps the invariant

  lemma MergeTiles(bs: seq<Block>, k: nat, lo: nat, hi: nat)
    requires Tiles(bs, lo, hi) && k + 1 < |bs|
    ensures Tiles(Merge(bs, k), lo, hi)
  {
    var cs := Merge(bs, k);
    assert bs[k].End() == EndOf(bs, k, hi) && bs[k + 1].End() == EndOf(bs, k + 1, hi);
    forall i | 0 <= i < |cs| ensures cs[i].End() == EndOf(cs, i, hi) {
      assert i < k ==> bs[i].End() == EndOf(bs, i, hi);
      assert i > k ==> cs[i] == bs[i + 1] && bs[i + 1].End() == EndOf(bs, i + 1, hi);
    }
  }

  lemma MergeLive(bs: seq<Block>, k: nat)
    requires k + 1 < |bs| && bs[k].free && bs[k + 1].free
    ensures Live(Merge(bs, k)) == Live(bs)
    ensures Aligned(bs) ==> Aligned(Merge(bs, k))
    ensures Positive(bs) ==> Positive(Merge(bs, k))
  {
    var cs := Merge(bs, k);
    forall b | b in Live(bs) ensures b in cs {
      var i :| 0 <= i < |bs| && bs[i] == b;
      assert b == if i < k then cs[i] else cs[i - 1];
    }
  }

  /** The pass makes any tiling canonical, whatever it was before, and keeps the live blocks. */
  lemma {:induction false} CoalesceCanonical(bs: seq<Block>, k: nat)
    requires Heap(bs) && CoalescedTo(bs, k + 1)
    ensures Canonical(Coalesce(bs, k)) && Live(Coalesce(bs, k)) == Live(bs)
    ensures Positive(bs) ==> Positive(Coalesce(bs, k))
    decreases |bs| - k
  {
    if k + 1 < |bs| {
      if bs[k].free && bs[k + 1].free {
        MergeTiles(bs, k, HEAP_START, HEAP_END);
        MergeLive(bs, k);
        CoalesceCanonical(Merge(bs, k), k);
      } else {
        CoalesceCanonical(bs, k + 1);
      }
    }
  }

  lemma MarkFreeHeap(bs: seq<Block>, p: nat)
    requires Heap(bs)
    ensures Heap(MarkFree(bs, p))
    ensures Live(MarkFree(bs, p)) == set b | b in Live(bs) && b.Payload() != p
    ensures Positive(bs) ==> Positive(MarkFree(bs, p))
  {
    var cs := MarkFree(bs, p);
    forall i | 0 <= i < |cs| ensures cs[i].End() == EndOf(cs, i, HEAP_END) {
      assert bs[i].End() == EndOf(bs, i, HEAP_END);
    }
    forall b | b in Live(bs) && b.Payload() != p ensures b in Live(cs) {
      var i :| 0 <= i < |bs| && bs[i] == b;
      assert cs[i] == b;
    }
  }

  // ----- one call

  lemma AddSeven(n: Word)
    ensures AddW(n, 7) == if n <= 0xFFFF_FFF8 then n + 7 else n - 0xFFFF_FFF9
  {
  }

  lemma RoundDown8(m: nat)
    ensures m / 8 * 8 <= m < m / 8 * 8 + 8 && m / 8 * 8 % 4 == 0
    ensures m < 8 ==> m / 8 * 8 == 0
  {
    assert m / 8 * 8 == 4 * (2 * (m / 8));
  }

  lemma Round8Bounds(n: Word)
    ensures Round8(n) % 4 == 0
    ensures n <= Round8(n) <==> n <= 0xFFFF_FFF8
  {
    AddSeven(n);
    RoundDown8(AddW(n, 7));
  }

  /** A request that wraps rounds to 0. */
  lemma Round8Wrapped(n: Word)
    requires n > 0xFFFF_FFF8
    ensures Round8(n) == 0
  {
    AddSeven(n);
    RoundDown8(AddW(n, 7));
  }

  lemma MallocCanonical(bs: seq<Block>, n: Word)
    requires Canonical(bs)
    ensures Canonical(Malloc(bs, n).0)
    ensures n <= 0xFFFF_FFF8 && Positive(bs) ==> Positive(Malloc(bs, n).0)
  {
    var need := Round8(n);
    Round8Bounds(n);
    FirstFitIsFirst(bs, need, 0);
    var k := FirstFit(bs, need, 0);
    if n != 0 && k < |bs| {
      CarveCanonical(bs, k, need);
      if need > 0 && Positive(bs) { CarvePositive(bs, k, need); }
    }
  }

  lemma CarveZero(bs: seq<Block>, k: nat)
    requires Positive(bs) && k < |bs| && bs[k].free
    ensures Positive(Carve(bs, k, 0)) <==> bs[k].size <= HEADER
  {
    var cs := Carve(bs, k, 0);
    assert bs[k] in bs;
    if bs[k].size > HEADER {
      assert cs[k].size == 0 && cs[k] in cs;
    } else {
      assert forall b :: b in cs ==> b in bs || b == cs[k];
    }
  }

  /** Which requests leave a block of size 0: those that round to 0 and split the first free block. One
      that takes that block whole does not. */
  lemma MallocPositiveIff(bs: seq<Block>, n: Word)
    requires Canonical(bs) && Positive(bs) && n != 0
    ensures var k := FirstFit(bs, Round8(n), 0);
            Positive(Malloc(bs, n).0) <==> n <= 0xFFFF_FFF8 || k >= |bs| || bs[k].size <= HEADER
  {
    MallocCanonical(bs, n);
    var k := FirstFit(bs, Round8(n), 0);
    FirstFitIsFirst(bs, Round8(n), 0);
    if n > 0xFFFF_FFF8 && k < |bs| {
      Round8Wrapped(n);
      CarveZero(bs, k);
    }
  }

  lemma FreeCanonical(bs: seq<Block>, p: nat)
    requires Canonical(bs)
    ensures Canonical(Free(bs, p))
    ensures Live(Free(bs, p)) == set b | b in Live(bs) && b.Payload() != p
    ensures Positive(bs) ==> Positive(Free(bs, p))
  {
    if p != 0 {
      MarkFreeHeap(bs, p);
      CoalesceCanonical(MarkFree(bs, p), 0);
    }
  }

  // ----- canonical form

  /** The live blocks determine the whole list: the free blocks are the maximal gaps between them. */
  lemma {:induction false} LiveDeterminesBlocks(a: seq<Block>, b: seq<Block>, lo: nat, hi: nat)
    requires Tiles(a, lo, hi) && Tiles(b, lo, hi) && Coalesced(a) && Coalesced(b)
    requires Live(a) == Live(b)
    ensures a == b
    decreases |a|
  {
    Ordered(a, lo, hi);
    Ordered(b, lo, hi);
    SameHead(a, b, lo, hi);
    assert a[0].End() == EndOf(a, 0, hi) && b[0].End() == EndOf(b, 0, hi);
    if |a| > 1 && |b| > 1 {
      TilesTail(a, lo, hi);
      TilesTail(b, lo, hi);
      LiveTail(a, lo, hi);
      LiveTail(b, lo, hi);
      LiveDeterminesBlocks(a[1..], b[1..], a[0].End(), hi);
      assert a == [a[0]] + a[1..] && b == [b[0]] + b[1..];
    }
  }

  lemma LiveTail(a: seq<Block>, lo: nat, hi: nat)
    requires Tiles(a, lo, hi) && |a| > 1
    ensures Live(a[1..]) == Live(a) - {a[0]}
  {
    Ordered(a, lo, hi);
    assert forall i :: 0 < i < |a| ==> a[i] == a[1..][i - 1];
  }

  lemma SameHead(a: seq<Block>, b: seq<Block>, lo: nat, hi: nat)
    requires Tiles(a, lo, hi) && Tiles(b, lo, hi) && Coalesced(a) && Coalesced(b)
    requires Live(a) == Live(b)
    ensures a[0] == b[0]
  {
    Ordered(a, lo, hi);
    Ordered(b, lo, hi);
    assert a[0].End() == EndOf(a, 0, hi) && b[0].End() == EndOf(b, 0, hi);
    if !a[0].free {
      assert a[0] in Live(b);
    } else if !b[0].free {
      assert b[0] in Live(a);
    } else {
      if |a| > 1 { assert a[1] in Live(b); }
      if |b| > 1 { assert b[1] in Live(a); }
    }
  }

  /** No live block has the payload address of a free one. */
  lemma FreePayloadNotLive(bs: seq<Block>, k: nat)
    requires Heap(bs) && k < |bs| && bs[k].free
    ensures forall b :: b in Live(bs) ==> b.Payload() != bs[k].Payload()
  {
    forall b | b in Live(bs) ensures b.Payload() != bs[k].Payload() {
      var i :| 0 <= i < |bs| && bs[i] == b;
      if i < k { TilesOrdered(bs, HEAP_START, HEAP_END, i, k); } else { TilesOrdered(bs, HEAP_START, HEAP_END, k, i); }
    }
  }

  lemma CarveThenFree(bs: seq<Block>, k: nat, need: nat)
    requires Canonical(bs) && k < |bs| && Fits(bs[k], need) && need % 4 == 0
    ensures Free(Carve(bs, k, need), bs[k].Payload()) == bs
  {
    var cs, p := Carve(bs, k, need), bs[k].Payload();
    CarveCanonical(bs, k, need);
    CarveLive(bs, k, need);
    CarveMembers(bs, k, need);
    FreeCanonical(cs, p);
    FreePayloadNotLive(bs, k);
    assert Live(Free(cs, p)) == Live(bs);
    LiveDeterminesBlocks(Free(cs, p), bs, HEAP_START, HEAP_END);
  }

  /** `kmalloc` and then `kfree` of its result restores the list. */
  lemma MallocThenFree(bs: seq<Block>, n: Word)
    requires Canonical(bs)
    ensures var (cs, p) := Malloc(bs, n); Free(cs, p) == bs
  {
    var k := FirstFit(bs, Round8(n), 0);
    FirstFitIsFirst(bs, Round8(n), 0);
    if n != 0 && k < |bs| {
      Round8Bounds(n);
      CarveThenFree(bs, k, Round8(n));
    }
  }

  // ----- completeness of first fit

  /** A header and `need` bytes at `a` lie in the heap and meet no live block, header included. */
  ghost predicate Room(live: set<Block>, a: nat, need: nat) {
    && HEAP_START <= a && a + HEADER + need <= HEAP_END
    && forall b :: b in live ==> a + HEADER + need <= b.addr || b.End() <= a
  }

  /** The index of the block covering address `a`. */
  lemma {:induction false} BlockAt(bs: seq<Block>, lo: nat, hi: nat, a: nat) returns (i: nat)
    requires Tiles(bs, lo, hi) && lo <= a < hi
    ensures i < |bs| && bs[i].addr <= a < bs[i].End()
    decreases |bs|
  {
    assert bs[0].End() == EndOf(bs, 0, hi);
    if a < bs[0].End() {
      i := 0;
    } else {
      TilesTail(bs, lo, hi);
      var j := BlockAt(bs[1..], bs[0].End(), hi, a);
      i := j + 1;
    }
  }

  /** Room between the live blocks always lies inside one free block that fits. */
  lemma RoomIsAFit(bs: seq<Block>, a: nat, need: nat) returns (i: nat)
    requires Canonical(bs) && Room(Live(bs), a, need)
    ensures i < |bs| && Fits(bs[i], need) && bs[i].addr <= a
  {
    i := BlockAt(bs, HEAP_START, HEAP_END, a);
    assert bs[i].End() == EndOf(bs, i, HEAP_END);
    var b := bs[i];
    assert b.free || b in Live(bs);
    if i + 1 < |bs| { assert bs[i + 1] in Live(bs); }
  }

  lemma FitIsRoom(bs: seq<Block>, i: nat, need: nat)
    requires Canonical(bs) && i < |bs| && Fits(bs[i], need)
    ensures Room(Live(bs), bs[i].addr, need)
  {
    Ordered(bs, HEAP_START, HEAP_END);
    forall b | b in Live(bs) ensures bs[i].addr + HEADER + need <= b.addr || b.End() <= bs[i].addr {
      var j :| 0 <= j < |bs| && bs[j] == b;
      assert j != i;
    }
  }

  /** `kmalloc` fails exactly when the live blocks leave no room for the rounded request and a
      header; otherwise it takes the lowest address at which they do. */
  lemma FirstFitComplete(bs: seq<Block>, n: Word)
    requires Canonical(bs) && n != 0
    ensures var (p, need) := (Malloc(bs, n).1, Round8(n));
            && (p == 0 <==> forall a :: !Room(Live(bs), a, need))
            && (p != 0 ==>
                  && p > HEADER && Room(Live(bs), p - HEADER, need)
                  && forall a :: Room(Live(bs), a, need) ==> p - HEADER <= a)
  {
    var need := Round8(n);
    var k := FirstFit(bs, need, 0);
    FirstFitIsFirst(bs, need, 0);
    Ordered(bs, HEAP_START, HEAP_END);
    if k < |bs| { FitIsRoom(bs, k, need); }
    forall a | Room(Live(bs), a, need) ensures k < |bs| && bs[k].addr <= a {
      var i := RoomIsAFit(bs, a, need);
      assert k <= i;
    }
  }

  /** The rounded request is the one multiple of 8 from `n` to `n + 7`. */
  lemma Round8Is(n: Word, need: nat)
    requires 0 < n <= 0xFFFF_FFF8 && need % 8 == 0 && n <= need < n + 8
    ensures Round8(n) == need
  {
    AddSeven(n);
    var q := need / 8;
    assert need == 8 * q && 8 * q <= n + 7 < 8 * q + 8;
    assert (n + 7) / 8 == q;
  }

  /** `kmalloc(n)` with the request rounded to the next multiple of 8: NULL exactly when no address has room
      between the live blocks for a 12-byte header and the rounded request; otherwise the pointer is 12 above
      the lowest such address, and the one new live block holds at most 12 bytes more than the rounded request.
      `kmalloc(0)` is NULL and changes nothing. */
  lemma MallocRounded(bs: seq<Block>, n: Word, need: nat)
    requires Canonical(bs) && n <= 0xFFFF_FFF8 && need % 8 == 0 && n <= need < n + 8
    ensures n == 0 ==> Malloc(bs, n) == (bs, 0)
    ensures n > 0 ==>
      var (cs, p) := Malloc(bs, n);
      && (p == 0 <==> forall a :: !Room(Live(bs), a, need))
      && (p == 0 ==> cs == bs)
      && (p != 0 ==>
            && p > 12 && Room(Live(bs), p - 12, need)
            && (forall a :: Room(Live(bs), a, need) ==> p - 12 <= a)
            && exists b :: b !in Live(bs) && Live(cs) == Live(bs) + {b}
                           && b.addr == p - 12 && need <= b.size <= need + 12)
  {
    if n > 0 {
      Round8Is(n, need);
      FirstFitComplete(bs, n);
      MallocLive(bs, n);
    }
  }

  /** A successful `kmalloc(n)` adds one live block, disjoint from the others, that holds the rounded
      request and at most 12 bytes more; with `n` above 0xFFFFFFF8 the rounding has wrapped to 0. */
  lemma MallocLive(bs: seq<Block>, n: Word)
    requires Canonical(bs)
    ensures var (cs, p) := Malloc(bs, n);
            && (p == 0 ==> cs == bs)
            && (p != 0 ==> exists b :: b !in Live(bs) && Live(cs) == Live(bs) + {b} && b.Payload() == p
                                    && Round8(n) <= b.size <= Round8(n) + HEADER)
    ensures n <= Round8(n) <==> n <= 0xFFFF_FFF8
  {
    var need := Round8(n);
    var (cs, p) := Malloc(bs, n);
    FirstFitIsFirst(bs, need, 0);
    Round8Bounds(n);
    if p != 0 {
      var k := FirstFit(bs, need, 0);
      CarveLive(bs, k, need);
      CarveMembers(bs, k, need);
      FreePayloadNotLive(bs, k);
      assert cs[k] !in Live(bs);
    }
  }

  /** Live blocks, header and payload, are pairwise disjoint and inside the heap. */
  lemma LiveDisjoint(bs: seq<Block>)
    requires Canonical(bs)
    ensures forall b, c :: b in Live(bs) && c in Live(bs) && b != c ==> b.End() <= c.addr || c.End() <= b.addr
    ensures forall b :: b in Live(bs) ==> HEAP_START <= b.addr && b.End() <= HEAP_END
  {
    Ordered(bs, HEAP_START, HEAP_END);
    forall b, c | b in Live(bs) && c in Live(bs) && b != c ensures b.End() <= c.addr || c.End() <= b.addr {
      var i :| 0 <= i < |bs| && bs[i] == b;
      var j :| 0 <= j < |bs| && bs[j] == c;
      assert i != j;
    }
  }

  // ----- whole runs

  datatype Call = Alloc(n: Word) | Release(p: nat)

  function Step(bs: seq<Block>, c: Call): seq<Block> {
    match c
    case Alloc(n) => Malloc(bs, n).0
    case Release(p) => Free(bs, p)
  }

  function Run(bs: seq<Block>, calls: seq<Call>): seq<Block>
    decreases calls
  {
    if calls == [] then bs else Run(Step(bs, calls[0]), calls[1..])
  }

  /** Every run from a fresh heap stays canonical, and its blocks stay non-empty unless a request
      so large that the rounding wraps was made. */
  lemma {:induction false} RunCanonical(bs: seq<Block>, calls: seq<Call>)
    requires Canonical(bs)
    ensures Canonical(Run(bs, calls))
    ensures Positive(bs) && (forall n :: Alloc(n) in calls ==> n <= 0xFFFF_FFF8) ==> Positive(Run(bs, calls))
    decreases calls
  {
    if calls != [] {
      if calls[0].Alloc? {
        MallocCanonical(bs, calls[0].n);
      } else {
        FreeCanonical(bs, calls[0].p);
      }
      RunCanonical(Step(bs, calls[0]), calls[1..]);
      assert forall n :: Alloc(n) in calls[1..] ==> Alloc(n) in calls;
    }
  }

  lemma InitialCanonical()
    ensures Canonical(Initial()) && Positive(Initial()) && Live(Initial()) == {}
  {
    assert EndOf(Initial(), 0, HEAP_END) == HEAP_END;
  }

  /** Two histories that leave the same live blocks leave the same block list. */
  lemma HistoryIndependent(calls: seq<Call>, calls': seq<Call>)
    requires Live(Run(Initial(), calls)) == Live(Run(Initial(), calls'))
    ensures Run(Initial(), calls) == Run(Initial(), calls')
  {
    InitialCanonical();
    RunCanonical(Initial(), calls);
    RunCanonical(Initial(), calls');
    LiveDeterminesBlocks(Run(Initial(), calls), Run(Initial(), calls'), HEAP_START, HEAP_END);
  }

  function Releases(ps: seq<nat>): seq<Call> {
    seq(|ps|, i requires 0 <= i < |ps| => Release(ps[i]))
  }

  lemma {:induction false} ReleasesLive(bs: seq<Block>, ps: seq<nat>)
    requires Canonical(bs)
    ensures Canonical(Run(bs, Releases(ps)))
    ensures Live(Run(bs, Releases(ps))) == set b | b in Live(bs) && b.Payload() !in ps
    decreases ps
  {
    if ps != [] {
      FreeCanonical(bs, ps[0]);
      ReleasesLive(Free(bs, ps[0]), ps[1..]);
      assert Releases(ps)[1..] == Releases(ps[1..]);
      assert forall p :: p in ps <==> p == ps[0] || p in ps[1..];
    }
  }

  /** Freeing a set of blocks gives the same list in every order. */
  lemma FreeOrderIrrelevant(bs: seq<Block>, ps: seq<nat>, qs: seq<nat>)
    requires Canonical(bs) && forall p :: p in ps <==> p in qs
    ensures Run(bs, Releases(ps)) == Run(bs, Releases(qs))
  {
    ReleasesLive(bs, ps);
    ReleasesLive(bs, qs);
    LiveDeterminesBlocks(Run(bs, Releases(ps)), Run(bs, Releases(qs)), HEAP_START, HEAP_END);
  }

  /** Freeing every live block, in any order, leaves the single free block of a fresh heap. */
  lemma FreeAllRestoresInitial(bs: seq<Block>, ps: seq<nat>)
    requires Canonical(bs) && forall b :: b in Live(bs) ==> b.Payload() in ps
    ensures Run(bs, Releases(ps)) == Initial()
  {
    ReleasesLive(bs, ps);
    InitialCanonical();
    LiveDeterminesBlocks(Run(bs, Releases(ps)), Initial(), HEAP_START, HEAP_END);
  }
}
