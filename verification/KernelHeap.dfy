/** The allocator itself: two list walks over headers kept inside the memory being handed out. */
module KernelHeap {
  import opened Machine
  import opened BlockList

  /** The word of heap memory that holds byte address `a`. */
  function Index(a: nat): int {
    (a - HEAP_START) / 4
  }

  /** The memory words `mem` hold the header of block `b`, with `next` as its link. */
  ghost predicate HeaderAt(mem: seq<Word>, b: Block, next: nat) {
    && HEAP_START <= b.addr && b.addr % 4 == 0 && b.addr + HEADER <= HEAP_START + 4 * |mem|
    && mem[Index(b.addr)] == b.size
    && mem[Index(b.addr) + 1] == (if b.free then 1 else 0)
    && mem[Index(b.addr) + 2] == next
  }

  /** The headers in memory form exactly the list `bs`, linked in order and ended by NULL. */
  ghost predicate Encoded(mem: seq<Word>, bs: seq<Block>) {
    forall k {:trigger EndOf(bs, k, 0)} :: 0 <= k < |bs| ==> HeaderAt(mem[..], bs[k], EndOf(bs, k, 0))
  }

  /** The two memories agree outside the bytes [lo, hi). */
  ghost predicate SameOutside(mem: seq<Word>, mem': seq<Word>, lo: nat, hi: nat) {
    |mem| == |mem'| && forall i :: 0 <= i < |mem| && !(lo <= HEAP_START + 4 * i < hi) ==> mem'[i] == mem[i]
  }

  /** A header that ends before `lo` or starts after `hi` survives. */
  lemma HeaderKept(mem: seq<Word>, mem': seq<Word>, lo: nat, hi: nat, b: Block, next: nat)
    requires SameOutside(mem, mem', lo, hi) && HeaderAt(mem, b, next)
    requires b.addr + HEADER <= lo || hi <= b.addr
    ensures HeaderAt(mem', b, next)
  {
  }

  /** Word `i` belongs to the payload of a live block. */
  ghost predicate Owned(bs: seq<Block>, i: int) {
    exists b :: b in Live(bs) && b.Payload() <= HEAP_START + 4 * i < b.End()
  }

  /** A free block holds no live payload. */
  lemma FreeBlockUnowned(bs: seq<Block>, k: nat)
    requires Heap(bs) && k < |bs|
    ensures forall i :: Owned(bs, i) ==> !(bs[k].addr <= HEAP_START + 4 * i < bs[k].Payload())
    ensures bs[k].free ==> forall i :: Owned(bs, i) ==> !(bs[k].addr <= HEAP_START + 4 * i < bs[k].End())
  {
    Ordered(bs, HEAP_START, HEAP_END);
    forall i | Owned(bs, i)
      ensures !(bs[k].addr <= HEAP_START + 4 * i < if bs[k].free then bs[k].End() else bs[k].Payload())
    {
      var b :| b in Live(bs) && b.Payload() <= HEAP_START + 4 * i < b.End();
      var j :| 0 <= j < |bs| && bs[j] == b;
    }
  }

  /** What the walks read at block `k`: its size, its flag and the address of the next block. */
  lemma HeaderFields(mem: seq<Word>, bs: seq<Block>, k: nat)
    requires Heap(bs) && Encoded(mem, bs) && k < |bs|
    ensures var w := Index(bs[k].addr);
            && 0 <= w && w + 2 < |mem| && bs[k].addr >= HEAP_START
            && mem[w] == bs[k].size && (mem[w + 1] != 0 <==> bs[k].free)
            && mem[w + 2] == if k + 1 < |bs| then bs[k + 1].addr else 0
    ensures k + 1 < |bs| ==> bs[k + 1].addr >= HEAP_START
  {
    assert HeaderAt(mem[..], bs[k], EndOf(bs, k, 0));
    Within(bs, HEAP_START, HEAP_END, k);
  }

  lemma CarveEncoded(mem: seq<Word>, mem': seq<Word>, bs: seq<Block>, k: nat, need: nat)
    requires Heap(bs) && k < |bs| && Fits(bs[k], need) && Encoded(mem, bs)
    requires SameOutside(mem, mem', bs[k].addr, bs[k].End())
    requires var cs := Carve(bs, k, need);
             && HeaderAt(mem', cs[k], EndOf(cs, k, 0))
             && (|cs| > |bs| ==> HeaderAt(mem', cs[k + 1], EndOf(cs, k + 1, 0)))
    ensures Encoded(mem', Carve(bs, k, need))
  {
    var cs := Carve(bs, k, need);
    forall j | 0 <= j < |cs| ensures HeaderAt(mem', cs[j], EndOf(cs, j, 0)) {
      if j < k || j > k + |cs| - |bs| {
        var i := CarveKeeps(bs, k, need, j);
        assert EndOf(cs, j, 0) == EndOf(bs, i, 0);
        HeaderElsewhere(mem, mem', bs, k, i, bs[k].End());
      } else if j > k {
        assert j == k + 1;
      }
    }
  }

  /** The header of another block survives a change inside block `k`. */
  lemma HeaderElsewhere(mem: seq<Word>, mem': seq<Word>, bs: seq<Block>, k: nat, i: nat, hi: nat)
    requires Heap(bs) && k < |bs| && i < |bs| && i != k && Encoded(mem, bs)
    requires SameOutside(mem, mem', bs[k].addr, hi) && hi <= bs[k].End()
    ensures HeaderAt(mem', bs[i], EndOf(bs, i, 0))
  {
    if i < k { TilesOrdered(bs, HEAP_START, HEAP_END, i, k); } else { TilesOrdered(bs, HEAP_START, HEAP_END, k, i); }
    HeaderKept(mem, mem', bs[k].addr, hi, bs[i], EndOf(bs, i, 0));
  }

  lemma MarkEncoded(mem: seq<Word>, mem': seq<Word>, bs: seq<Block>, k: nat)
    requires Heap(bs) && k < |bs| && Encoded(mem, bs)
    requires SameOutside(mem, mem', bs[k].addr, bs[k].Payload())
    requires HeaderAt(mem', bs[k].(free := true), EndOf(bs, k, 0))
    ensures Encoded(mem', MarkFree(bs, bs[k].Payload()))
  {
    var cs := MarkFree(bs, bs[k].Payload());
    forall j | 0 <= j < |cs| ensures HeaderAt(mem', cs[j], EndOf(cs, j, 0)) {
      assert EndOf(cs, j, 0) == EndOf(bs, j, 0);
      if j < k { TilesOrdered(bs, HEAP_START, HEAP_END, j, k); }
      if j > k { TilesOrdered(bs, HEAP_START, HEAP_END, k, j); }
      if j != k { HeaderElsewhere(mem, mem', bs, k, j, bs[k].Payload()); }
    }
  }

  lemma MergeEncoded(mem: seq<Word>, mem': seq<Word>, bs: seq<Block>, k: nat)
    requires Heap(bs) && k + 1 < |bs| && Encoded(mem, bs)
    requires SameOutside(mem, mem', bs[k].addr, bs[k].Payload())
    requires HeaderAt(mem', Merge(bs, k)[k], EndOf(bs, k + 1, 0))
    ensures Encoded(mem', Merge(bs, k))
  {
    var cs := Merge(bs, k);
    forall j | 0 <= j < |cs| ensures HeaderAt(mem', cs[j], EndOf(cs, j, 0)) {
      var i := if j < k then j else j + 1;
      assert EndOf(cs, j, 0) == EndOf(bs, i, 0);
      if j != k {
        assert cs[j] == bs[i];
        HeaderElsewhere(mem, mem', bs, k, i, bs[k].Payload());
      }
    }
  }

  /** The block of a live pointer. */
  lemma PointerBlock(bs: seq<Block>, p: nat) returns (k: nat)
    requires Heap(bs) && LivePointer(bs, p)
    ensures k < |bs| && bs[k].Payload() == p && HEAP_START <= bs[k].addr
  {
    var b :| b in Live(bs) && b.Payload() == p;
    k :| 0 <= k < |bs| && bs[k] == b;
    Within(bs, HEAP_START, HEAP_END, k);
  }

  /** Freeing a block leaves no new live payload. */
  lemma MarkFreeOwned(bs: seq<Block>, p: nat)
    requires Heap(bs)
    ensures forall i :: Owned(MarkFree(bs, p), i) ==> Owned(bs, i)
  {
    MarkFreeHeap(bs, p);
  }

  lemma SameLiveSameOwned(a: seq<Block>, b: seq<Block>)
    requires Live(a) == Live(b)
    ensures forall i :: Owned(a, i) <==> Owned(b, i)
  {
  }

  class Allocator {
    var heapStart: Word
    const mem: array<Word>
    ghost var blocks: seq<Block>

    ghost predicate Valid()
      reads this, mem
    {
      && mem.Length * 4 == HEAP_SIZE
      && Canonical(blocks)
      && (heapStart == 0 ==> blocks == Initial())
      && (heapStart != 0 ==> heapStart == HEAP_START && Encoded(mem[..], blocks))
    }

    /** Before the first call: `heap_start` is NULL and the memory holds anything. */
    constructor (memory: array<Word>)
      requires memory.Length * 4 == HEAP_SIZE
      ensures Valid() && blocks == Initial() && mem == memory
    {
      heapStart := 0;
      mem := memory;
      blocks := Initial();
      new;
      InitialCanonical();
    }

    method StoreHeader(b: Block, next: Word)
      requires HEAP_START <= b.addr && b.addr % 4 == 0 && b.addr + HEADER <= HEAP_START + 4 * mem.Length
      requires b.size < TWO_32
      modifies mem
      ensures HeaderAt(mem[..], b, next)
      ensures SameOutside(old(mem[..]), mem[..], b.addr, b.Payload())
    {
      var w := Index(b.addr);
      mem[w] := b.size;
      mem[w + 1] := if b.free then 1 else 0;
      mem[w + 2] := next;
    }

    method KheapInit()
      requires Valid()
      modifies this, mem
      ensures Valid() && heapStart == HEAP_START && blocks == old(blocks)
      ensures old(heapStart) != 0 ==> mem[..] == old(mem[..])
      ensures forall i :: 0 <= i < mem.Length && Owned(blocks, i) ==> mem[i] == old(mem[i])
    {
      InitialCanonical();
      if heapStart == 0 {
        heapStart := HEAP_START;
        StoreHeader(Block(heapStart, HEAP_SIZE - HEADER, true), 0);
      }
    }

    /** First fit with splitting. The new list and the pointer are those of `Malloc`; no word of a
        live payload changes. */
    method Kmalloc(n: Word) returns (ptr: Word)
      requires Valid()
      modifies this, mem
      ensures Valid() && heapStart == HEAP_START
      ensures (blocks, ptr) == Malloc(old(blocks), n)
      ensures forall i :: 0 <= i < mem.Length && Owned(old(blocks), i) ==> mem[i] == old(mem[i])
    {
      KheapInit();
      if n == 0 { return 0; }
      var size: Word := Round8(n);
      Round8Bounds(n);
      ghost var bs, entry := blocks, mem[..];
      InitialCanonical();
      HeaderFields(entry, bs, 0);
      var current := heapStart;
      ghost var k := 0;
      while current != 0
        invariant heapStart == HEAP_START && blocks == bs && mem[..] == entry
        invariant k <= |bs| && FirstFit(bs, size, 0) == FirstFit(bs, size, k)
        invariant current == if k < |bs| then bs[k].addr else 0
        invariant k < |bs| ==> current >= HEAP_START
        decreases |bs| - k
      {
        HeaderFields(entry, bs, k);
        var w := Index(current);
        assert mem[w] == entry[w] && mem[w + 1] == entry[w + 1] && mem[w + 2] == entry[w + 2];
        if mem[w + 1] != 0 && mem[w] >= size {
          Take(k, current, size);
          return current + HEADER;
        }
        current := mem[w + 2];
        k := k + 1;
      }
      return 0;
    }

    /** Hand out block `k` at address `current`, splitting it when the rest can hold a header. */
    method Take(ghost k: nat, current: Word, size: Word)
      requires Valid() && heapStart != 0
      requires k < |blocks| && current == blocks[k].addr && Fits(blocks[k], size) && size % 4 == 0
      modifies this`blocks, mem
      ensures Valid() && blocks == Carve(old(blocks), k, size)
      ensures forall i :: 0 <= i < mem.Length && Owned(old(blocks), i) ==> mem[i] == old(mem[i])
    {
      ghost var bs, before := blocks, mem[..];
      Within(bs, HEAP_START, HEAP_END, k);
      assert bs[k] in bs;
      assert HeaderAt(before, bs[k], EndOf(bs, k, 0));
      StoreTaken(bs[k], EndOf(bs, k, 0), current, size);
      CarveMembers(bs, k, size);
      CarveCanonical(bs, k, size);
      CarveEncoded(before, mem[..], bs, k, size);
      FreeBlockUnowned(bs, k);
      blocks := Carve(bs, k, size);
    }

    /** The header writes for handing out block `b`. */
    method StoreTaken(ghost b: Block, ghost next: Word, current: Word, size: Word)
      requires mem.Length * 4 == HEAP_SIZE && b.End() <= HEAP_END && b.size % 4 == 0
      requires HeaderAt(mem[..], b, next) && current == b.addr && Fits(b, size) && size % 4 == 0
      modifies mem
      ensures SameOutside(old(mem[..]), mem[..], b.addr, b.End())
      ensures if b.size > size + HEADER then
                && HeaderAt(mem[..], Block(b.addr, size, false), b.addr + HEADER + size)
                && HeaderAt(mem[..], Block(b.addr + HEADER + size, b.size - size - HEADER, true), next)
              else
                HeaderAt(mem[..], b.(free := false), next)
    {
      var w := Index(current);
      if mem[w] > size + HEADER {
        StoreSplit(b, next, current, size);
        SetFlag(b.(size := size), b.addr + HEADER + size, current, false);
      } else {
        SetFlag(b, next, current, false);
      }
    }

    /** The writes of a split: the header of the rest, then the size and the link of the front. */
    method StoreSplit(ghost b: Block, ghost next: Word, current: Word, size: Word)
      requires mem.Length * 4 == HEAP_SIZE && b.End() <= HEAP_END && b.size % 4 == 0
      requires HeaderAt(mem[..], b, next) && current == b.addr && size % 4 == 0 && b.size > size + HEADER
      modifies mem
      ensures SameOutside(old(mem[..]), mem[..], b.addr, b.End())
      ensures HeaderAt(mem[..], b.(size := size), b.addr + HEADER + size)
      ensures HeaderAt(mem[..], Block(b.addr + HEADER + size, b.size - size - HEADER, true), next)
    {
      var w := Index(current);
      var newBlock := current + HEADER + size;
      ghost var rest := Block(newBlock, b.size - size - HEADER, true);
      ghost var before := mem[..];
      StoreHeader(Block(newBlock, mem[w] - size - HEADER, true), mem[w + 2]);
      HeaderKept(before, mem[..], newBlock, newBlock + HEADER, b, next);
      ghost var stored := mem[..];
      Shorten(b, next, current, size, newBlock);
      HeaderKept(stored, mem[..], b.addr, b.Payload(), rest, next);
    }

    /** `current->size = size; current->next = rest`. */
    method Shorten(ghost b: Block, ghost next: nat, current: Word, size: Word, rest: Word)
      requires HeaderAt(mem[..], b, next) && current == b.addr
      modifies mem
      ensures HeaderAt(mem[..], b.(size := size), rest)
      ensures SameOutside(old(mem[..]), mem[..], b.addr, b.Payload())
    {
      var w := Index(current);
      mem[w] := size;
      mem[w + 2] := rest;
    }

    /** `current->free = free`. */
    method SetFlag(ghost b: Block, ghost next: nat, current: Word, free: bool)
      requires HeaderAt(mem[..], b, next) && current == b.addr
      modifies mem
      ensures HeaderAt(mem[..], b.(free := free), next)
      ensures SameOutside(old(mem[..]), mem[..], b.addr, b.Payload())
    {
      mem[Index(current) + 1] := if free then 1 else 0;
    }

    /** `block->free = 1` for the block of a live pointer. */
    method Mark(ptr: Word)
      requires mem.Length * 4 == HEAP_SIZE && Heap(blocks) && Encoded(mem[..], blocks) && LivePointer(blocks, ptr)
      modifies this`blocks, mem
      ensures blocks == MarkFree(old(blocks), ptr) && Encoded(mem[..], blocks)
      ensures forall i :: 0 <= i < mem.Length && Owned(blocks, i) ==> mem[i] == old(mem[i])
    {
      ghost var bs, before := blocks, mem[..];
      ghost var k := PointerBlock(bs, ptr);
      SetFlag(bs[k], EndOf(bs, k, 0), ptr - HEADER, true);
      MarkEncoded(before, mem[..], bs, k);
      FreeBlockUnowned(bs, k);
      blocks := MarkFree(bs, ptr);
      MarkFreeOwned(bs, ptr);
    }

    /** Join free block `k`, at `current`, with its free right neighbour. */
    method Join(ghost k: nat, current: Word)
      requires mem.Length * 4 == HEAP_SIZE && Heap(blocks) && Encoded(mem[..], blocks)
      requires k + 1 < |blocks| && current == blocks[k].addr && blocks[k].free && blocks[k + 1].free
      modifies this`blocks, mem
      ensures blocks == Merge(old(blocks), k) && Encoded(mem[..], blocks)
      ensures forall i :: 0 <= i < mem.Length && Owned(old(blocks), i) ==> mem[i] == old(mem[i])
    {
      ghost var bs, before := blocks, mem[..];
      Ordered(bs, HEAP_START, HEAP_END);
      assert HeaderAt(before, bs[k], EndOf(bs, k, 0)) && HeaderAt(before, bs[k + 1], EndOf(bs, k + 1, 0));
      assert bs[k].End() == EndOf(bs, k, HEAP_END);
      var w := Index(current);
      var n := Index(mem[w + 2]);
      mem[w] := mem[w] + (HEADER + mem[n]);
      mem[w + 2] := mem[n + 2];
      blocks := Merge(bs, k);
      assert SameOutside(before, mem[..], bs[k].addr, bs[k].Payload());
      FreeBlockUnowned(bs, k);
      MergeEncoded(before, mem[..], bs, k);
    }

    /** The coalescing pass of `kfree`. */
    method CoalesceAll()
      requires mem.Length * 4 == HEAP_SIZE && heapStart == HEAP_START
      requires Heap(blocks) && Encoded(mem[..], blocks)
      modifies this`blocks, mem
      ensures blocks == Coalesce(old(blocks), 0) && Encoded(mem[..], blocks)
      ensures forall i :: 0 <= i < mem.Length && Owned(old(blocks), i) ==> mem[i] == old(mem[i])
    {
      var current := heapStart;
      ghost var k := 0;
      Within(blocks, HEAP_START, HEAP_END, 0);
      while current != 0 && mem[Index(current) + 2] != 0
        invariant Heap(blocks) && Encoded(mem[..], blocks) && Live(blocks) == Live(old(blocks))
        invariant k < |blocks| && current == blocks[k].addr && current >= HEAP_START
        invariant HeaderAt(mem[..], blocks[k], EndOf(blocks, k, 0))
        invariant Coalesce(blocks, k) == Coalesce(old(blocks), 0)
        invariant forall i :: 0 <= i < mem.Length && Owned(old(blocks), i) ==> mem[i] == old(mem[i])
        decreases |blocks| - k
      {
        var next := mem[Index(current) + 2];
        Within(blocks, HEAP_START, HEAP_END, k);
        assert HeaderAt(mem[..], blocks[k + 1], EndOf(blocks, k + 1, 0));
        if mem[Index(current) + 1] != 0 && mem[Index(next) + 1] != 0 {
          MergeTiles(blocks, k, HEAP_START, HEAP_END);
          MergeLive(blocks, k);
          SameLiveSameOwned(blocks, old(blocks));
          Join(k, current);
        } else {
          current := next;
          k := k + 1;
        }
        assert HeaderAt(mem[..], blocks[k], EndOf(blocks, k, 0));
      }
      if k + 1 < |blocks| {
        Within(blocks, HEAP_START, HEAP_END, k);
      }
    }

    method Kfree(ptr: Word)
      requires Valid()
      requires ptr == 0 || LivePointer(blocks, ptr)
      modifies this`blocks, mem
      ensures Valid()
      ensures blocks == Free(old(blocks), ptr)
      ensures forall i :: 0 <= i < mem.Length && Owned(blocks, i) ==> mem[i] == old(mem[i])
    {
      if ptr == 0 { return; }
      InitialCanonical();
      ghost var marked := MarkFree(blocks, ptr);
      MarkFreeHeap(blocks, ptr);
      CoalesceCanonical(marked, 0);
      Mark(ptr);
      CoalesceAll();
      SameLiveSameOwned(blocks, marked);
    }

    /** A client stores into a live payload: no header changes, so the heap stays as it was. */
    method ClientStore(i: nat, value: Word)
      requires Valid() && i < mem.Length && Owned(blocks, i)
      modifies mem
      ensures Valid() && mem[..] == old(mem[..])[i := value]
    {
      InitialCanonical();
      forall k | 0 <= k < |blocks| ensures !(blocks[k].addr <= HEAP_START + 4 * i < blocks[k].Payload()) {
        FreeBlockUnowned(blocks, k);
      }
      ghost var before := mem[..];
      mem[i] := value;
      forall k | 0 <= k < |blocks| ensures HeaderAt(mem[..], blocks[k], EndOf(blocks, k, 0)) {
        assert HeaderAt(before, blocks[k], EndOf(blocks, k, 0));
      }
    }
  }
}
