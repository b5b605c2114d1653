/** Storing fixed-size records on a drive of fixed-size sectors, for any two sizes.
    A record takes a whole number of sectors; the tail of its last sector is zero. */
module SectorStore {
  import opened Machine
  import opened CString

  type Sector = seq<Byte>

  /** Sectors per record. */
  function SectorCount(isz: nat, ssz: nat): nat
    requires ssz > 0
  {
    (isz + ssz - 1) / ssz
  }

  /** Bytes of the record held by its sector `s`. */
  function CopySize(s: nat, isz: nat, ssz: nat): int
    requires ssz > 0
  {
    if s == SectorCount(isz, ssz) - 1 then isz - s * ssz else ssz
  }

  /** Sector `s` of record `i`. */
  function Lba(i: nat, s: nat, isz: nat, ssz: nat): nat
    requires ssz > 0
  {
    i * SectorCount(isz, ssz) + s
  }

  /** The copy sizes stay inside a sector and inside the record, and all but the last are full. */
  lemma CopyBounds(s: nat, isz: nat, ssz: nat)
    requires ssz > 0 && s < SectorCount(isz, ssz)
    ensures 0 < CopySize(s, isz, ssz) <= ssz && s * ssz + CopySize(s, isz, ssz) <= isz
    ensures s + 1 < SectorCount(isz, ssz) ==> CopySize(s, isz, ssz) == ssz && (s + 1) * ssz == s * ssz + ssz < isz
    ensures s + 1 == SectorCount(isz, ssz) ==> s * ssz + CopySize(s, isz, ssz) == isz
  {
    var c := SectorCount(isz, ssz);
    DivBounds(isz + ssz - 1, ssz);
    Times(s, ssz);
    if s + 1 < c {
      TimesMonotonic(s + 2, c, ssz);
      Times(s + 1, ssz);
    }
  }

  lemma DivBounds(n: nat, d: nat)
    requires d > 0
    ensures n / d * d <= n < n / d * d + d
  {
  }

  lemma Times(a: nat, b: nat)
    ensures (a + 1) * b == a * b + b
  {
  }

  lemma TimesMonotonic(a: nat, b: nat, c: nat)
    requires a <= b
    ensures a * c <= b * c
  {
  }

  /** Distinct records never share a sector. */
  lemma LbaDisjoint(i: nat, j: nat, isz: nat, ssz: nat)
    requires ssz > 0 && i < j
    ensures Lba(i, SectorCount(isz, ssz), isz, ssz) <= Lba(j, 0, isz, ssz)
  {
    Times(i, SectorCount(isz, ssz));
    TimesMonotonic(i + 1, j, SectorCount(isz, ssz));
  }

  /** The content of sector `s` of a record. */
  function Image(raw: seq<Byte>, s: nat, ssz: nat): Sector
    requires ssz > 0 && s < SectorCount(|raw|, ssz)
  {
    CopyBounds(s, |raw|, ssz);
    var n := CopySize(s, |raw|, ssz);
    raw[s * ssz..s * ssz + n] + Zeros(ssz - n)
  }

  /** Byte `k` of sector `s` is byte `s * ssz + k` of the record, or zero behind its end. */
  lemma ImageBytes(raw: seq<Byte>, s: nat, ssz: nat, k: nat)
    requires ssz > 0 && s < SectorCount(|raw|, ssz) && k < ssz
    ensures |Image(raw, s, ssz)| == ssz
    ensures Image(raw, s, ssz)[k] == if s * ssz + k < |raw| then raw[s * ssz + k] else 0
  {
    CopyBounds(s, |raw|, ssz);
    PaddedAt(raw, s * ssz, CopySize(s, |raw|, ssz), ssz, k);
  }

  lemma PaddedAt(raw: seq<Byte>, at: nat, n: nat, width: nat, k: nat)
    requires at + n <= |raw| && n <= width && k < width
    ensures (raw[at..at + n] + Zeros(width - n))[k] == if k < n then raw[at + k] else 0
  {
  }

  /** A drive of `ssz`-byte sectors with room for `n` records. */
  predicate Drive(disk: seq<Sector>, n: nat, isz: nat, ssz: nat)
    requires ssz > 0
  {
    n * SectorCount(isz, ssz) <= |disk| && forall l :: 0 <= l < |disk| ==> |disk[l]| == ssz
  }

  lemma SectorInDrive(disk: seq<Sector>, i: nat, s: nat, isz: nat, ssz: nat)
    requires ssz > 0 && s < SectorCount(isz, ssz) && Drive(disk, i + 1, isz, ssz)
    ensures Lba(i, s, isz, ssz) < |disk| && |disk[Lba(i, s, isz, ssz)]| == ssz
  {
    Times(i, SectorCount(isz, ssz));
  }

  /** A drive with room for `n` records has room for fewer. */
  lemma DriveFor(disk: seq<Sector>, n: nat, m: nat, isz: nat, ssz: nat)
    requires ssz > 0 && m <= n && Drive(disk, n, isz, ssz)
    ensures Drive(disk, m, isz, ssz)
  {
    TimesMonotonic(m, n, SectorCount(isz, ssz));
  }

  /** The record bytes held by sectors `0..s` of record `i`. */
  function Gather(disk: seq<Sector>, i: nat, s: nat, isz: nat, ssz: nat): (b: seq<Byte>)
    requires ssz > 0 && s <= SectorCount(isz, ssz) && Drive(disk, i + 1, isz, ssz)
    ensures |b| == if s == SectorCount(isz, ssz) then isz else s * ssz
  {
    if s == 0 then
      []
    else
      CopyBounds(s - 1, isz, ssz);
      SectorInDrive(disk, i, s - 1, isz, ssz);
      Gather(disk, i, s - 1, isz, ssz) + disk[Lba(i, s - 1, isz, ssz)][..CopySize(s - 1, isz, ssz)]
  }

  /** The bytes of record `i`. */
  function Assemble(disk: seq<Sector>, i: nat, isz: nat, ssz: nat): (b: seq<Byte>)
    requires ssz > 0 && Drive(disk, i + 1, isz, ssz)
    ensures |b| == isz
  {
    Gather(disk, i, SectorCount(isz, ssz), isz, ssz)
  }

  /** The drive holds `raw` as record `i`. */
  ghost predicate Holds(disk: seq<Sector>, i: nat, raw: seq<Byte>, ssz: nat)
    requires ssz > 0
  {
    forall s :: 0 <= s < SectorCount(|raw|, ssz) ==>
      Lba(i, s, |raw|, ssz) < |disk| && disk[Lba(i, s, |raw|, ssz)] == Image(raw, s, ssz)
  }

  lemma HeldPiece(disk: seq<Sector>, i: nat, raw: seq<Byte>, s: nat, ssz: nat)
    requires ssz > 0 && s < SectorCount(|raw|, ssz) && Holds(disk, i, raw, ssz)
    ensures CopySize(s, |raw|, ssz) >= 0 && s * ssz + CopySize(s, |raw|, ssz) <= |raw|
    ensures var (l, n) := (Lba(i, s, |raw|, ssz), CopySize(s, |raw|, ssz));
            l < |disk| && n <= |disk[l]| && disk[l][..n] == raw[s * ssz..s * ssz + n]
  {
    CopyBounds(s, |raw|, ssz);
    assert disk[Lba(i, s, |raw|, ssz)] == Image(raw, s, ssz);
    var n := CopySize(s, |raw|, ssz);
    Front(raw[s * ssz..s * ssz + n], Zeros(ssz - n));
  }

  lemma Front(a: seq<Byte>, b: seq<Byte>)
    ensures (a + b)[..|a|] == a
  {
  }

  lemma LongerPrefix(raw: seq<Byte>, lo: nat, n: nat)
    requires lo + n <= |raw|
    ensures raw[..lo] + raw[lo..lo + n] == raw[..lo + n]
  {
  }

  lemma {:induction false} GatherHolds(disk: seq<Sector>, i: nat, raw: seq<Byte>, s: nat, ssz: nat)
    requires ssz > 0 && s <= SectorCount(|raw|, ssz) && Drive(disk, i + 1, |raw|, ssz) && Holds(disk, i, raw, ssz)
    ensures |Gather(disk, i, s, |raw|, ssz)| <= |raw|
    ensures Gather(disk, i, s, |raw|, ssz) == raw[..|Gather(disk, i, s, |raw|, ssz)|]
  {
    if s > 0 {
      var g, lo, n := Gather(disk, i, s - 1, |raw|, ssz), (s - 1) * ssz, CopySize(s - 1, |raw|, ssz);
      GatherHolds(disk, i, raw, s - 1, ssz);
      HeldPiece(disk, i, raw, s - 1, ssz);
      assert |g| == lo;
      assert Gather(disk, i, s, |raw|, ssz) == g + raw[lo..lo + n];
      LongerPrefix(raw, lo, n);
    }
  }

  /** Reading back what was written is the identity, whatever the drive held before. */
  lemma AssembleHolds(disk: seq<Sector>, i: nat, raw: seq<Byte>, ssz: nat)
    requires ssz > 0 && Drive(disk, i + 1, |raw|, ssz) && Holds(disk, i, raw, ssz)
    ensures Assemble(disk, i, |raw|, ssz) == raw
  {
    GatherHolds(disk, i, raw, SectorCount(|raw|, ssz), ssz);
  }

  /** Sector `l` is none of record `i`'s. */
  predicate Outside(l: int, i: nat, isz: nat, ssz: nat)
    requires ssz > 0
  {
    l < Lba(i, 0, isz, ssz) || Lba(i, SectorCount(isz, ssz), isz, ssz) <= l
  }

  /** Writing record `i` leaves every other record as it is, since no two records share a sector. */
  lemma HoldsKept(before: seq<Sector>, after: seq<Sector>, j: nat, i: nat, raw: seq<Byte>, ssz: nat)
    requires ssz > 0 && j != i && |before| == |after| && Holds(before, j, raw, ssz)
    requires forall l :: 0 <= l < |before| && Outside(l, i, |raw|, ssz) ==> after[l] == before[l]
    ensures Holds(after, j, raw, ssz)
  {
    if j < i { LbaDisjoint(j, i, |raw|, ssz); } else { LbaDisjoint(i, j, |raw|, ssz); }
    forall s | 0 <= s < SectorCount(|raw|, ssz)
      ensures Lba(j, s, |raw|, ssz) < |after| && after[Lba(j, s, |raw|, ssz)] == Image(raw, s, ssz)
    {
      assert Outside(Lba(j, s, |raw|, ssz), i, |raw|, ssz);
    }
  }

  /** The cleared buffer with the bytes of one sector copied into it. */
  method FillBuffer(buffer: array<Byte>, raw: seq<Byte>, s: nat, ssz: nat)
    requires ssz > 0 && buffer.Length == ssz && s < SectorCount(|raw|, ssz)
    modifies buffer
    ensures buffer[..] == Image(raw, s, ssz)
  {
    CopyBounds(s, |raw|, ssz);
    MemSet(buffer, 0, 0, ssz);
    MemCpy(buffer, 0, raw, s * ssz, CopySize(s, |raw|, ssz));
  }

  /** The inner loop of `vfs_sync`: write one record, sector by sector. */
  method SyncRecord(disk: array<Sector>, i: nat, raw: seq<Byte>, ssz: nat)
    requires ssz > 0 && Drive(disk[..], i + 1, |raw|, ssz)
    modifies disk
    ensures Drive(disk[..], i + 1, |raw|, ssz) && Holds(disk[..], i, raw, ssz)
    ensures forall l :: 0 <= l < disk.Length ==> |disk[l]| == ssz && (Outside(l, i, |raw|, ssz) ==> disk[l] == old(disk[l]))
  {
    var buffer := new Byte[ssz](_ => 0);
    var count := SectorCount(|raw|, ssz);
    var first := Lba(i, 0, |raw|, ssz);
    Times(i, count);
    for s := 0 to count
      invariant forall l :: 0 <= l < disk.Length ==> |disk[l]| == ssz
      invariant forall t :: 0 <= t < s ==> disk[first + t] == Image(raw, t, ssz)
      invariant forall l :: 0 <= l < disk.Length && !(first <= l < first + s) ==> disk[l] == old(disk[l])
    {
      FillBuffer(buffer, raw, s, ssz);
      disk[first + s] := buffer[..];
    }
    assert forall s: nat :: Lba(i, s, |raw|, ssz) == first + s;
  }

  /** The inner loop of `vfs_load`: read one record over whatever `raw` held. */
  method LoadRecord(disk: array<Sector>, i: nat, raw: array<Byte>, ssz: nat)
    requires ssz > 0 && Drive(disk[..], i + 1, raw.Length, ssz) && disk as object != raw
    modifies raw
    ensures raw[..] == Assemble(disk[..], i, raw.Length, ssz)
  {
    var isz := raw.Length;
    var count := SectorCount(isz, ssz);
    Times(i, count);
    var done := 0;
    for s := 0 to count
      invariant done == |Gather(disk[..], i, s, isz, ssz)| <= isz
      invariant raw[..done] == Gather(disk[..], i, s, isz, ssz)
      invariant disk[..] == old(disk[..])
    {
      CopyBounds(s, isz, ssz);
      var n := CopySize(s, isz, ssz);
      var buffer := disk[Lba(i, s, isz, ssz)];
      MemCpy(raw, s * ssz, buffer, 0, n);
      done := s * ssz + n;
    }
  }
}
