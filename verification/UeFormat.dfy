/** The fixed-layout parts of a UE file: header, segment table, load tables and debug table (UeImage.h, UeEmit.c). */
module UeFormat {
  import opened Bytes
  import opened Image

  const MAGIC := 0x4555
  const SEGMENT_HEADER_SIZE := 8
  const HEADER_SIZE := 16
  const MAX_SEGMENTS := 32
  const TABLE_RELOC := 0
  const TABLE_DEBUG := 1

  const BIT_52: int := 0x10_0000_0000_0000
  const BIT_56: int := 0x100_0000_0000_0000
  const BIT_57: int := 0x200_0000_0000_0000
  const BIT_58: int := 0x400_0000_0000_0000
  const BIT_59: int := 0x800_0000_0000_0000
  const BIT_60: int := 0x1000_0000_0000_0000

  // ---------------------------------------------------------------- machines

  /** mPeMachines, indexed by the UE machine identifier. */
  const PE_MACHINES: seq<uint16> := [0x014C, 0x8664, 0x01C2, 0xAA64, 0x5032, 0x5064, 0x5128]

  /** InternalGetUeMachine. */
  function UeMachine(machine: uint16): (m: Option<nat>)
    ensures m.Some? <==> machine in PE_MACHINES
    ensures m.Some? ==> m.value < |PE_MACHINES| && PE_MACHINES[m.value] == machine
  {
    if machine == 0x014C then Some(0)
    else if machine == 0x8664 then Some(1)
    else if machine == 0x01C2 then Some(2)
    else if machine == 0xAA64 then Some(3)
    else if machine == 0x5032 then Some(4)
    else if machine == 0x5064 then Some(5)
    else if machine == 0x5128 then Some(6)
    else None
  }

  // ---------------------------------------------------------------- alignment

  function Pow2(e: nat): (p: nat)
    ensures p > 0 && IsPow2(p)
  {
    if e == 0 then 1 else 2 * Pow2(e - 1)
  }

  lemma {:induction false} Pow2Mono(d: nat, e: nat)
    requires d <= e
    ensures Pow2(d) <= Pow2(e)
    decreases e
  {
    if d < e {
      Pow2Mono(d, e - 1);
    }
  }

  lemma Pow2Values()
    ensures Pow2(12) == 0x1000 && Pow2(27) == 0x800_0000
  {
    assert Pow2(3) == 8;
    assert Pow2(6) == 8 * Pow2(3);
    assert Pow2(9) == 8 * Pow2(6);
    assert Pow2(12) == 8 * Pow2(9);
    assert Pow2(15) == 8 * Pow2(12);
    assert Pow2(18) == 8 * Pow2(15);
    assert Pow2(21) == 8 * Pow2(18);
    assert Pow2(24) == 8 * Pow2(21);
    assert Pow2(27) == 8 * Pow2(24);
  }

  /** AlignmentToExponent. */
  function Exponent(a: nat): (e: nat)
    requires IsPow2(a)
    ensures Pow2(e) == a
  {
    if a == 1 then 0 else 1 + Exponent(a / 2)
  }

  // ---------------------------------------------------------------- the file header

  function Bit(b: bool): (r: nat)
    ensures r <= 1
  {
    if b then 1 else 0
  }

  function ImageInfo(base: uint64, fixed: bool, stripped: bool, chained: bool, exponent: nat): nat
    requires 12 <= exponent
  {
    base / 0x1000 + Bit(fixed) * BIT_57 + Bit(stripped) * BIT_58 + Bit(chained) * BIT_59 + (exponent - 12) * BIT_60
  }

  /** The accessors of UeImage.h recover every field; the XIP bit is clear. */
  lemma ImageInfoFields(base: uint64, fixed: bool, stripped: bool, chained: bool, exponent: nat)
    requires 12 <= exponent <= 27 && base % 0x1000 == 0
    ensures var info := ImageInfo(base, fixed, stripped, chained, exponent);
            && info < TWO_64
            && info * 0x1000 % TWO_64 == base
            && info / BIT_56 % 2 == 0
            && info / BIT_57 % 2 == Bit(fixed)
            && info / BIT_58 % 2 == Bit(stripped)
            && info / BIT_59 % 2 == Bit(chained)
            && info / BIT_60 + 12 == exponent
  {
    var page := base / 0x1000;
    InfoBase(page, Bit(fixed), Bit(stripped), Bit(chained), exponent - 12);
    InfoBits(page, Bit(fixed), Bit(stripped), Bit(chained), exponent - 12);
  }

  lemma InfoBase(page: nat, f: nat, s: nat, c: nat, e: nat)
    requires page < BIT_52 && f <= 1 && s <= 1 && c <= 1 && e <= 15
    ensures var info := page + f * BIT_57 + s * BIT_58 + c * BIT_59 + e * BIT_60;
            info < TWO_64 && info * 0x1000 % TWO_64 == page * 0x1000 && info / BIT_60 == e
  {
    var info := page + f * BIT_57 + s * BIT_58 + c * BIT_59 + e * BIT_60;
    DivModUnique(info * 0x1000, TWO_64, 32 * f + 64 * s + 128 * c + 256 * e, page * 0x1000);
    DivModUnique(info, BIT_60, e, page + f * BIT_57 + s * BIT_58 + c * BIT_59);
  }

  lemma InfoBits(page: nat, f: nat, s: nat, c: nat, e: nat)
    requires page < BIT_52 && f <= 1 && s <= 1 && c <= 1 && e <= 15
    ensures var info := page + f * BIT_57 + s * BIT_58 + c * BIT_59 + e * BIT_60;
            info / BIT_56 % 2 == 0 && info / BIT_57 % 2 == f && info / BIT_58 % 2 == s && info / BIT_59 % 2 == c
  {
    var info := page + f * BIT_57 + s * BIT_58 + c * BIT_59 + e * BIT_60;
    DivModUnique(info, BIT_56, 2 * f + 4 * s + 8 * c + 16 * e, page);
    DivModUnique(info, BIT_57, f + 2 * s + 4 * c + 8 * e, page);
    DivModUnique(info, BIT_58, s + 2 * c + 4 * e, page + f * BIT_57);
    DivModUnique(info, BIT_59, c + 2 * e, page + f * BIT_57 + s * BIT_58);
  }

  function FileHeader(ty: byte, counts: byte, entry: uint32, info: uint64): (h: seq<byte>)
    ensures |h| == HEADER_SIZE
  {
    ToLe(MAGIC, 2) + [ty, counts] + ToLe(entry, 4) + ToLe(info, 8)
  }

  lemma FileHeaderFields(ty: byte, counts: byte, entry: uint32, info: uint64)
    ensures var h := FileHeader(ty, counts, entry, info);
            && Load(h, 0, 2) == MAGIC && h[2] == ty && h[3] == counts
            && Load(h, 4, 4) == entry && Load(h, 8, 8) == info
  {
    var h := FileHeader(ty, counts, entry, info);
    Pow256Values();
    assert h[0..2] == ToLe(MAGIC, 2) && h[4..8] == ToLe(entry, 4) && h[8..16] == ToLe(info, 8);
    FromToLe(MAGIC, 2);
    FromToLe(entry, 4);
    FromToLe(info, 8);
  }

  // ---------------------------------------------------------------- the segment table

  /** The permissions ToolImageEmitUeSegmentHeaders accepts: X, RX, RW or R. */
  function Permissions(s: Segment): (p: Option<nat>)
    ensures p.Some? ==> p.value < 4
  {
    if s.write && s.execute then None
    else if !s.read && !s.write && s.execute then Some(0)
    else if s.read && !s.write && s.execute then Some(1)
    else if s.read && s.write then Some(2)
    else if s.read then Some(3)
    else None
  }

  predicate AllPermitted(segs: seq<Segment>) {
    forall i :: 0 <= i < |segs| ==> Permissions(segs[i]).Some?
  }

  /** A segment header as the loader reads it. */
  datatype Entry = Entry(size: nat, permissions: nat, fileSize: nat)

  function EntryOf(s: Segment): Entry
    requires Permissions(s).Some?
  {
    Entry(|s.data|, Permissions(s).value, s.unpaddedSize)
  }

  ghost predicate Storable(segs: seq<Segment>) {
    forall i :: 0 <= i < |segs| ==> StorableSegment(segs[i])
  }

  ghost predicate StorableSegment(s: Segment) {
    Permissions(s).Some? && |s.data| < TWO_32 && |s.data| % 0x1000 == 0 && s.unpaddedSize <= |s.data|
  }

  function SegmentHeader(s: Segment): (h: seq<byte>)
    requires Permissions(s).Some?
    ensures |h| == SEGMENT_HEADER_SIZE
  {
    ToLe(|s.data| / 0x1000 + Permissions(s).value * TWO_20, 4) + ToLe(s.unpaddedSize, 4)
  }

  function SegmentTable(segs: seq<Segment>): (t: seq<byte>)
    requires AllPermitted(segs)
    ensures |t| == SEGMENT_HEADER_SIZE * |segs|
  {
    if segs == [] then [] else SegmentHeader(segs[0]) + SegmentTable(segs[1..])
  }

  function ReadEntry(bytes: seq<byte>): Entry
    requires |bytes| >= SEGMENT_HEADER_SIZE
  {
    var info := Load(bytes, 0, 4);
    Entry(info * 0x1000 % TWO_32, info / TWO_20 % 4, Load(bytes, 4, 4))
  }

  function ReadEntries(bytes: seq<byte>, n: nat): (es: seq<Entry>)
    requires |bytes| == SEGMENT_HEADER_SIZE * n
    ensures |es| == n
  {
    if n == 0 then [] else [ReadEntry(bytes)] + ReadEntries(bytes[SEGMENT_HEADER_SIZE..], n - 1)
  }

  function Entries(segs: seq<Segment>): (es: seq<Entry>)
    requires AllPermitted(segs)
    ensures |es| == |segs|
  {
    if segs == [] then [] else [EntryOf(segs[0])] + Entries(segs[1..])
  }

  lemma SegmentInfoFields(size: nat, p: nat)
    requires size < TWO_32 && size % 0x1000 == 0 && p < 4
    ensures var info := size / 0x1000 + p * TWO_20;
            info < TWO_32 && info * 0x1000 % TWO_32 == size && info / TWO_20 % 4 == p
  {
    var page := size / 0x1000;
    var info := page + p * TWO_20;
    assert info / TWO_20 == p;
    assert info * 0x1000 == size + p * TWO_32;
  }

  lemma EntryRoundTrip(s: Segment, rest: seq<byte>)
    requires StorableSegment(s)
    ensures ReadEntry(SegmentHeader(s) + rest) == EntryOf(s)
  {
    var info := |s.data| / 0x1000 + Permissions(s).value * TWO_20;
    var bytes := SegmentHeader(s) + rest;
    SegmentInfoFields(|s.data|, Permissions(s).value);
    Pow256Values();
    assert bytes[0..4] == ToLe(info, 4) && bytes[4..8] == ToLe(s.unpaddedSize, 4);
    FromToLe(info, 4);
    FromToLe(s.unpaddedSize, 4);
  }

  lemma {:induction false} SegmentTableRoundTrip(segs: seq<Segment>)
    requires Storable(segs) && AllPermitted(segs)
    ensures ReadEntries(SegmentTable(segs), |segs|) == Entries(segs)
  {
    if segs != [] {
      assert StorableSegment(segs[0]);
      var rest := SegmentTable(segs[1..]);
      EntryRoundTrip(segs[0], rest);
      assert (SegmentHeader(segs[0]) + rest)[SEGMENT_HEADER_SIZE..] == rest;
      SegmentTableRoundTrip(segs[1..]);
    }
  }

  // ---------------------------------------------------------------- load tables

  function LoadTable(id: nat, size: nat): nat { size / 8 + id * 0x2000_0000 }

  function TableId(info: nat): nat { info / 0x2000_0000 }

  function TableSize(info: nat): nat { info * 8 % TWO_32 }

  lemma LoadTableFields(id: nat, size: nat)
    requires id < 8 && size < TWO_32 && size % 8 == 0
    ensures var info := LoadTable(id, size);
            info < TWO_32 && TableId(info) == id && TableSize(info) == size
  {
    assert LoadTable(id, size) * 8 == size + id * TWO_32;
  }
}
