/** The on-disk and in-memory inode record: 8304 bytes. */
module InodeLayout {
  import opened Machine
  import opened CString

  const MAX_INODES: int := 32
  const MAX_FILE_SIZE: int := 8192
  const MAX_DIR_ENTRIES: int := 16
  const MAX_FILENAME: int := 32
  const INODE_SIZE: int := 8304

  const INODE_FREE: Word := 0
  const INODE_FILE: Word := 1
  const INODE_DIR: Word := 2

  datatype Record = Record(
    name: seq<Byte>, itype: Word, size: Word, parent: Word, numEntries: Word, entries: seq<Word>, data: seq<Byte>)

  predicate Shaped(r: Record) {
    |r.name| == MAX_FILENAME && |r.entries| == MAX_DIR_ENTRIES && |r.data| == MAX_FILE_SIZE
  }

  function ZeroWords(n: nat): (z: seq<Word>)
    ensures |z| == n
  {
    Zeros(n)
  }

  function ZeroRecord(): Record {
    Record(Zeros(MAX_FILENAME), INODE_FREE, 0, 0, 0, ZeroWords(MAX_DIR_ENTRIES), Zeros(MAX_FILE_SIZE))
  }

  type Inode = r: Record | Shaped(r) witness ZeroRecord()

  function Zero(): Inode {
    ZeroRecord()
  }

  /** The bytes of the C struct, field after field without padding. */
  function Encode(i: Inode): (b: seq<Byte>)
    ensures |b| == INODE_SIZE
  {
    i.name + Le32(i.itype) + Le32(i.size) + Le32(i.parent) + Le32(i.numEntries) + Le32Seq(i.entries) + i.data
  }

  /** The struct a byte image stands for. */
  function Decode(b: seq<Byte>): Inode
    requires |b| == INODE_SIZE
  {
    Record(b[..32], FromLe32(b[32..36]), FromLe32(b[36..40]), FromLe32(b[40..44]), FromLe32(b[44..48]),
           FromLe32Seq(b[48..112]), b[112..])
  }

  /** The value of the four bytes at `at`, the least significant first. */
  function ValueAt(b: seq<Byte>, at: nat): int
    requires at + 4 <= |b|
  {
    b[at] + b[at + 1] as int * 0x100 + b[at + 2] as int * 0x1_0000 + b[at + 3] as int * 0x100_0000
  }

  lemma WordAt(b: seq<Byte>, at: nat, w: Word)
    requires at + 4 <= |b| && b[at..at + 4] == Le32(w)
    ensures ValueAt(b, at) == w
  {
    Le32Weights(w);
    var c := b[at..at + 4];
    assert c[0] == b[at] && c[1] == b[at + 1] && c[2] == b[at + 2] && c[3] == b[at + 3];
  }

  /** Where the compiler puts the fields of the struct. */
  lemma FieldOffsets(i: Inode, k: nat)
    requires k < 16
    ensures var b := Encode(i);
            && |b| == 8304 && b[..32] == i.name && b[112..] == i.data
            && ValueAt(b, 32) == i.itype && ValueAt(b, 36) == i.size
            && ValueAt(b, 40) == i.parent && ValueAt(b, 44) == i.numEntries
            && ValueAt(b, 48 + 4 * k) == i.entries[k]
  {
    var b := Encode(i);
    assert b[..32] == i.name && b[112..] == i.data;
    assert b[32..36] == Le32(i.itype) && b[36..40] == Le32(i.size);
    assert b[40..44] == Le32(i.parent) && b[44..48] == Le32(i.numEntries);
    assert b[48..112] == Le32Seq(i.entries);
    WordAt(b, 32, i.itype);
    WordAt(b, 36, i.size);
    WordAt(b, 40, i.parent);
    WordAt(b, 44, i.numEntries);
    EntryAt(b, i.entries, k);
  }

  lemma InnerSlice(b: seq<Byte>, lo: nat, hi: nat, x: nat, y: nat)
    requires lo <= hi <= |b| && x <= y <= hi - lo
    ensures b[lo..hi][x..y] == b[lo + x..lo + y]
  {
    var c, d := b[lo..hi][x..y], b[lo + x..lo + y];
    forall j | 0 <= j < |c| ensures c[j] == d[j] {
      assert c[j] == b[lo..hi][x + j] == b[lo + (x + j)];
    }
    assert c == d;
  }

  lemma EntryAt(b: seq<Byte>, entries: seq<Word>, k: nat)
    requires |b| >= 112 && |entries| == 16 && b[48..112] == Le32Seq(entries) && k < 16
    ensures ValueAt(b, 48 + 4 * k) == entries[k]
  {
    Le32SeqAt(entries, k);
    InnerSlice(b, 48, 112, 4 * k, 4 * k + 4);
    WordAt(b, 48 + 4 * k, entries[k]);
  }

  lemma DecodeEncode(i: Inode)
    ensures Decode(Encode(i)) == i
  {
    var b := Encode(i);
    assert b[..32] == i.name && b[112..] == i.data;
    assert b[32..36] == Le32(i.itype) && b[36..40] == Le32(i.size);
    assert b[40..44] == Le32(i.parent) && b[44..48] == Le32(i.numEntries);
    assert b[48..112] == Le32Seq(i.entries);
    Le32RoundTrip(i.itype);
    Le32RoundTrip(i.size);
    Le32RoundTrip(i.parent);
    Le32RoundTrip(i.numEntries);
    Le32SeqRoundTrip(i.entries);
  }

  lemma EncodeDecode(b: seq<Byte>)
    requires |b| == INODE_SIZE
    ensures Encode(Decode(b)) == b
  {
    FromLe32RoundTrip(b[32..36]);
    FromLe32RoundTrip(b[36..40]);
    FromLe32RoundTrip(b[40..44]);
    FromLe32RoundTrip(b[44..48]);
    FromLe32SeqRoundTrip(b[48..112]);
  }

  lemma {:induction false} ZeroWordsBytes(n: nat)
    ensures Le32Seq(ZeroWords(n)) == Zeros(4 * n)
  {
    if n > 0 {
      ZeroWordsBytes(n - 1);
      assert ZeroWords(n)[1..] == ZeroWords(n - 1);
    }
  }

  /** `memset(inode, 0, sizeof(inode_t))` gives the record of zeros. */
  lemma DecodeZeros()
    ensures Encode(Zero()) == Zeros(INODE_SIZE) && Decode(Zeros(INODE_SIZE)) == Zero()
  {
    ZeroWordsBytes(MAX_DIR_ENTRIES);
    assert Encode(Zero()) == Zeros(INODE_SIZE);
    DecodeEncode(Zero());
  }
}
