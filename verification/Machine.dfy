/** Fixed-width integers of the 32-bit kernel, and their little-endian byte form. */
module Machine {

  const TWO_32: int := 0x1_0000_0000

  type Byte = x: int | 0 <= x < 256

  type Word = x: int | 0 <= x < 0x1_0000_0000

  /** Unsigned 32-bit addition, which wraps. */
  function AddW(a: Word, b: Word): Word {
    (a + b) % TWO_32
  }

  /** Unsigned 32-bit subtraction, which wraps. */
  function SubW(a: Word, b: Word): Word {
    (a - b) % TWO_32
  }

  /** The four bytes of a word, least significant first. */
  function Le32(w: Word): (b: seq<Byte>)
    ensures |b| == 4
  {
    [w % 256, w / 256 % 256, w / 65536 % 256, w / 16777216]
  }

  function FromLe32(b: seq<Byte>): Word
    requires |b| == 4
  {
    b[0] + b[1] as int * 256 + b[2] as int * 65536 + b[3] as int * 16777216
  }

  /** The two bytes of a half word, least significant first. */
  function Le16(h: Word): (b: seq<Byte>)
    requires h < 0x1_0000
    ensures |b| == 2
  {
    [h % 256, h / 256]
  }

  lemma Le16RoundTrip(h: Word)
    requires h < 0x1_0000
    ensures FromLe16(Le16(h)) == h && h == Le16(h)[0] + Le16(h)[1] as int * 0x100
  {
  }

  function FromLe16(b: seq<Byte>): Word
    requires |b| == 2
  {
    b[0] + b[1] as int * 256
  }

  lemma NestedQuotients(w: nat)
    ensures w / 65536 == w / 256 / 256 && w / 16777216 == w / 65536 / 256
  {
  }

  lemma Low8(low: Byte, high: nat)
    ensures (low as int + 256 * high) % 256 == low && (low as int + 256 * high) / 256 == high
  {
  }

  lemma Le32RoundTrip(w: Word)
    ensures FromLe32(Le32(w)) == w
  {
    NestedQuotients(w);
  }

  lemma FromLe32RoundTrip(b: seq<Byte>)
    requires |b| == 4
    ensures Le32(FromLe32(b)) == b
  {
    var w2 := b[2] as int + 256 * (b[3] as int);
    var w1 := b[1] as int + 256 * w2;
    var w := b[0] as int + 256 * w1;
    assert FromLe32(b) == w;
    NestedQuotients(w);
    Low8(b[0], w1);
    Low8(b[1], w2);
    Low8(b[2], b[3]);
  }

  /** The first byte of a word weighs 1, the next 256, and so on. */
  lemma Le32Weights(w: Word)
    ensures var b := Le32(w); w == b[0] + b[1] as int * 0x100 + b[2] as int * 0x1_0000 + b[3] as int * 0x100_0000
  {
    NestedQuotients(w);
  }

  /** The words of a sequence, in order, as bytes. */
  function Le32Seq(ws: seq<Word>): (b: seq<Byte>)
    ensures |b| == 4 * |ws|
  {
    if ws == [] then [] else Le32(ws[0]) + Le32Seq(ws[1..])
  }

  function FromLe32Seq(b: seq<Byte>): (ws: seq<Word>)
    requires |b| % 4 == 0
    ensures |b| == 4 * |ws|
  {
    if b == [] then [] else [FromLe32(b[..4])] + FromLe32Seq(b[4..])
  }

  /** Word `k` stands at byte `4 * k`. */
  lemma {:induction false} Le32SeqAt(ws: seq<Word>, k: nat)
    requires k < |ws|
    ensures Le32Seq(ws)[4 * k..4 * k + 4] == Le32(ws[k])
  {
    var b := Le32Seq(ws);
    if k == 0 {
      assert b[0..4] == Le32(ws[0]);
    } else {
      Le32SeqAt(ws[1..], k - 1);
      assert b[4..] == Le32Seq(ws[1..]);
      assert b[4 * k..4 * k + 4] == b[4..][4 * (k - 1)..4 * (k - 1) + 4];
    }
  }

  lemma {:induction false} Le32SeqRoundTrip(ws: seq<Word>)
    ensures FromLe32Seq(Le32Seq(ws)) == ws
  {
    if ws != [] {
      var b := Le32Seq(ws);
      assert b[..4] == Le32(ws[0]) && b[4..] == Le32Seq(ws[1..]);
      Le32RoundTrip(ws[0]);
      Le32SeqRoundTrip(ws[1..]);
    }
  }

  lemma {:induction false} FromLe32SeqRoundTrip(b: seq<Byte>)
    requires |b| % 4 == 0
    ensures Le32Seq(FromLe32Seq(b)) == b
  {
    if b != [] {
      FromLe32RoundTrip(b[..4]);
      FromLe32SeqRoundTrip(b[4..]);
      assert b == b[..4] + b[4..];
    }
  }
}
