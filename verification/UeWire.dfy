/** The UE format in numbers: what the bytes of every emitted file are, in terms of the image they were made from (UeImage.h). */
module UeWire {
  import opened Bytes
  import opened Image
  import opened Relocation
  import opened Truncation
  import opened StripPrefix
  import opened UeFixups
  import opened UeChains
  import opened UeFormat
  import opened UeBody
  import opened UeFile
  import opened UeEndToEnd
  import opened UeValidate
  import opened Pipeline

  // ---------------------------------------------------------------- the header

  /** The architecture numbers of the format. */
  function Architecture(machine: uint16): nat {
    match machine
    case 0x014C => 0  // I386
    case 0x8664 => 1  // X64
    case 0x01C2 => 2  // ARM Thumb mixed
    case 0xAA64 => 3  // ARM64
    case 0x5032 => 4  // RISC-V 32
    case 0x5064 => 5  // RISC-V 64
    case 0x5128 => 6  // RISC-V 128
    case _ => 31
  }

  function NumLoadTables(img: Image, strip: bool): nat {
    (if img.relocs != [] && !strip then 1 else 0) + if img.symbolsPath.Some? then 1 else 0
  }

  /** The sixteen bytes of the header, for the image that is written. */
  lemma HeaderBytes(out: Image, rest: seq<byte>)
    requires Checked(out) && HeaderFits(out)
    ensures var file, h := Header16(out) + rest, out.header;
            var info := Load(file, 8, 8);
            && file[0] == 'U' as int && file[1] == 'E' as int
            && file[2] == 8 * Architecture(h.machine) + (h.subsystem - 10) % 0x100
            && file[3] == 8 * (|out.segments| - 1) + NumTables(out)
            && Load(file, 4, 4) == h.entryPoint
            && info % 0x10_0000_0000_0000 == h.baseAddress / 0x1000
            && info / 0x10_0000_0000_0000 % 0x20 == 0
            && (info / 0x200_0000_0000_0000 % 2 == 1 <==> h.fixedAddress)
            && (info / 0x400_0000_0000_0000 % 2 == 1 <==> out.relocsStripped)
            && (info / 0x800_0000_0000_0000 % 2 == 1 <==> h.baseAddress == 0 && !h.fixedAddress)
            && 0x1000 * Pow2(info / 0x1000_0000_0000_0000) == out.alignment
  {
    hide Header16, InfoField, IsPow2, Exponent, CheckedSegment, CheckedRelocs, Load, Pow2, UeMachine;
    HeaderReads(out, rest);
    InfoReads(out);
    MagicBytes(out, rest);
    MachineNumber(out.header.machine);
    InfoLow(out);
    Pow2Sum(12, Load(Header16(out) + rest, 8, 8) / 0x1000_0000_0000_0000);
    Pow2Values();
  }

  lemma MagicBytes(out: Image, rest: seq<byte>)
    requires Checked(out) && HeaderFits(out)
    ensures var file := Header16(out) + rest; file[0] == 'U' as int && file[1] == 'E' as int
  {
    hide InfoField, IsPow2, Exponent, CheckedSegment, CheckedRelocs, UeMachine;
    assert ToLe(MAGIC, 2) == [0x55, 0x45] by {
      assert ToLe(0x45, 1) == [0x45];
    }
  }

  lemma MachineNumber(machine: uint16)
    ensures UeMachine(machine).Some? ==> UeMachine(machine).value == Architecture(machine)
  {
  }

  lemma InfoLow(out: Image)
    requires Checked(out) && HeaderFits(out)
    ensures InfoField(out) % 0x10_0000_0000_0000 == out.header.baseAddress / 0x1000
    ensures InfoField(out) / 0x10_0000_0000_0000 % 0x20 == 0
  {
    hide IsPow2, Exponent, CheckedSegment, CheckedRelocs, UeMachine;
    var h := out.header;
    InfoParts(h.baseAddress / 0x1000, Bit(h.fixedAddress), Bit(out.relocsStripped), Bit(Chaining(h)), Exponent(out.alignment) - 12);
  }

  lemma InfoParts(page: nat, f: nat, s: nat, c: nat, e: nat)
    requires page < 0x10_0000_0000_0000
    ensures var info := page + f * BIT_57 + s * BIT_58 + c * BIT_59 + e * BIT_60;
            info % 0x10_0000_0000_0000 == page && info / 0x10_0000_0000_0000 % 0x20 == 0
  {
    var info, q := page + f * BIT_57 + s * BIT_58 + c * BIT_59 + e * BIT_60, f + 2 * s + 4 * c + 8 * e;
    DivModUnique(info, 0x10_0000_0000_0000, 0x20 * q, page);
  }

  lemma {:induction false} Pow2Sum(d: nat, e: nat)
    ensures Pow2(d + e) == Pow2(d) * Pow2(e)
    decreases e
  {
    hide IsPow2;
    if e > 0 {
      Pow2Sum(d, e - 1);
      assert Pow2(d + e) == 2 * Pow2(d + e - 1) && Pow2(e) == 2 * Pow2(e - 1);
      assert 2 * (Pow2(d) * Pow2(e - 1)) == Pow2(d) * (2 * Pow2(e - 1));
    }
  }

  /** Header, segment table and load tables are where an emitted file starts. */
  lemma EmittedFront(out: Image, subtrahend: uint32, file: seq<byte>)
    requires Emitted(out, subtrahend, file)
    ensures HeaderFits(out) && Fixups(out).Some? && DebugTable(out, subtrahend).Some?
    ensures var n, l := 8 * |out.segments|, LoadTables(out, |RelocBytes(out)|, |DebugTable(out, subtrahend).value|);
            && 16 + n + |l| <= |file| && file == Header16(out) + file[16..]
            && file[16..16 + n] == SegmentTable(out.segments) && file[16 + n..16 + n + |l|] == l
  {
    hide FileBytes, RelocBytes, DebugTable, Fixups, Body, PackedSegments, CheckedSegment, CheckedRelocs, Truncated;
    hide Header16, SegmentTable, LoadTables, UeMachine, Exponent, IsPow2, AllPermitted, NumTables;
    EmittedSlices(out, subtrahend, file);
    var c := EmittedInto(out, subtrahend, file);
    var h, t, l := Header16(out), SegmentTable(out.segments), LoadTables(out, |RelocBytes(out)|, |DebugTable(out, subtrahend).value|);
    FrontParts(h, t, l, file, c.bodyAt);
  }

  lemma FrontParts(h: seq<byte>, t: seq<byte>, l: seq<byte>, file: seq<byte>, at: nat)
    requires |h| == 16 && at <= |file| && file[..at] == h + t + l
    ensures 16 + |t| + |l| <= |file| && file == h + file[16..]
    ensures file[16..16 + |t|] == t && file[16 + |t|..16 + |t| + |l|] == l
  {
    var p := h + t + l;
    assert file[..16] == p[..16] == h;
    assert file[16..16 + |t|] == p[16..16 + |t|];
    assert file[16 + |t|..16 + |t| + |l|] == p[16 + |t|..];
  }

  /** The header of every emitted file. */
  lemma WireHeader(img: Image, strip: bool)
    requires Checked(img) && EmitUe(img, strip).Some? && |EmitUe(img, strip).value.1| < TWO_32
    ensures var file, h := EmitUe(img, strip).value.1, img.header;
            && |file| >= 16
            && file[0] == 'U' as int && file[1] == 'E' as int
            && file[2] == 8 * Architecture(h.machine) + (h.subsystem - 10) % 0x100
            && file[3] == 8 * (|img.segments| - 1) + NumLoadTables(img, strip)
            && Load(file, 4, 4) == h.entryPoint - img.segments[0].address
            && var info := Load(file, 8, 8);
               && info % 0x10_0000_0000_0000 == h.baseAddress / 0x1000
               && info / 0x10_0000_0000_0000 % 0x20 == 0
               && (info / 0x200_0000_0000_0000 % 2 == 1 <==> h.fixedAddress)
               && (info / 0x400_0000_0000_0000 % 2 == 1 <==> strip)
               && (info / 0x800_0000_0000_0000 % 2 == 1 <==> h.baseAddress == 0 && !h.fixedAddress)
               && 0x1000 * Pow2(info / 0x1000_0000_0000_0000) == img.alignment
  {
    hide Prepared, FileBytes, Truncated, CheckedSegments, CheckedRelocs, Header16, SegmentTable, LoadTables, Load, Pow2;
    hide HeaderFits, ShiftRelocs, Architecture, RelocBytes, DebugTable;
    CheckedSome(img);
    var (out, file) := EmitUe(img, strip).value;
    PreparedEmittable(img, strip);
    PreparedFields(img, strip);
    ShiftedTargets(img);
    EmittedFront(out, img.segments[0].address, file);
    HeaderBytes(out, file[16..]);
  }

  // ---------------------------------------------------------------- the segment table

  /** Permissions as the format numbers them: execute only, read and execute, read and write, read only. */
  function Protection(s: Segment): nat {
    if s.write then 2 else if !s.execute then 3 else if s.read then 1 else 0
  }

  lemma {:induction false} SegmentEntry(segs: seq<Segment>, i: nat)
    requires Storable(segs) && AllPermitted(segs) && i < |segs|
    ensures Load(SegmentTable(segs), 8 * i, 4) == |segs[i].data| / 0x1000 + Protection(segs[i]) * 0x10_0000
    ensures Load(SegmentTable(segs), 8 * i + 4, 4) == segs[i].unpaddedSize
    decreases |segs|
  {
    hide ToLe, FromLe;
    var t, rest := SegmentTable(segs), SegmentTable(segs[1..]);
    assert StorableSegment(segs[0]) && Permissions(segs[0]).Some?;
    if i == 0 {
      var a, b := |segs[0].data| / 0x1000 + Protection(segs[0]) * 0x10_0000, segs[0].unpaddedSize;
      Pow256Values();
      FromToLe(a, 4);
      FromToLe(b, 4);
      assert t[0..4] == ToLe(a, 4) && t[4..8] == ToLe(b, 4);
    } else {
      SegmentEntry(segs[1..], i - 1);
      assert t[8 * i..8 * i + 4] == rest[8 * (i - 1)..8 * (i - 1) + 4];
      assert t[8 * i + 4..8 * i + 8] == rest[8 * (i - 1) + 4..8 * (i - 1) + 8];
    }
  }

  lemma PreparedShape(img: Image, strip: bool, i: nat)
    requires Checked(img) && !img.relocsStripped && i < |img.segments|
    ensures Prepared(img, strip).Some? && |Prepared(img, strip).value.segments| == |img.segments|
    ensures var s, t := img.segments[i], Prepared(img, strip).value.segments[i];
            && |t.data| == |s.data| && t.read == s.read && t.write == s.write && t.execute == s.execute
            && t.unpaddedSize == UnpaddedSize(s, img.relocs)
  {
    hide Truncate, RelocateAll, CheckedSegment, StripEmptyPrefix, UnpaddedSize, Truncated, AllHold, Ordered;
    WithSizesChecked(img);
    StripValue(WithSizes(img));
  }

  /** Every entry of the segment table: size in pages, protection, and how many bytes are stored. */
  lemma WireSegments(img: Image, strip: bool, i: nat)
    requires Checked(img) && EmitUe(img, strip).Some? && |EmitUe(img, strip).value.1| < TWO_32 && i < |img.segments|
    ensures var file, s := EmitUe(img, strip).value.1, img.segments[i];
            && 16 + 8 * |img.segments| <= |file|
            && Load(file, 16 + 8 * i, 4) == |s.data| / 0x1000 + Protection(s) * 0x10_0000
            && Load(file, 20 + 8 * i, 4) == UnpaddedSize(s, img.relocs)
  {
    hide Prepared, FileBytes, Truncated, CheckedSegments, CheckedRelocs, Header16, SegmentTable, LoadTables, FromLe;
    hide ShiftRelocs, RelocBytes, DebugTable, UnpaddedSize, Exponent, UeMachine, Storable;
    CheckedSome(img);
    var (out, file) := EmitUe(img, strip).value;
    PreparedEmittable(img, strip);
    PreparedShape(img, strip, i);
    EmittedFront(out, img.segments[0].address, file);
    EmittedStorable(out);
    SegmentEntry(out.segments, i);
    var n := 8 * |out.segments|;
    assert file[16..16 + n][8 * i..8 * i + 4] == file[16 + 8 * i..20 + 8 * i];
    assert file[16..16 + n][8 * i + 4..8 * i + 8] == file[20 + 8 * i..24 + 8 * i];
  }

  // ---------------------------------------------------------------- the load tables

  lemma {:induction false} NameFieldAt(segs: seq<Segment>, i: nat)
    requires Named(segs) && i < |segs|
    ensures HoldsName(NameFields(segs)[8 * i..8 * i + 8], segs[i].name)
    decreases |segs|
  {
    var f, rest := NameField(segs[0].name.value), NameFields(segs[1..]);
    if i == 0 {
      assert NameFields(segs)[0..8] == f;
    } else {
      NameFieldAt(segs[1..], i - 1);
      assert NameFields(segs)[8 * i..8 * i + 8] == rest[8 * (i - 1)..8 * (i - 1) + 8];
    }
  }

  /** The debug table: prefix size in units of the alignment, length and bytes of the path, a zero, and the names. */
  ghost predicate DebugIs(d: seq<byte>, factor: nat, path: seq<byte>, segs: seq<Segment>) {
    var n := 3 + |path| + 8 * |segs|;
    && |d| == AlignUp(n, 8) && d[0] == factor && d[1] == |path| && d[2..2 + |path|] == path && d[2 + |path|] == 0
    && (forall i :: 0 <= i < |segs| ==> NameIs(d, path, segs, i))
    && (forall j :: n <= j < |d| ==> d[j] == 0)
  }

  ghost predicate NameIs(d: seq<byte>, path: seq<byte>, segs: seq<Segment>, i: nat)
    requires i < |segs| && 3 + |path| + 8 * |segs| <= |d|
  {
    var at := 3 + |path|;
    HoldsName(d[at + 8 * i..at + 8 * i + 8], segs[i].name)
  }

  lemma DebugTableIs(img: Image, subtrahend: uint32)
    requires img.alignment > 0 && img.symbolsPath.Some? && DebugTable(img, subtrahend).Some?
    ensures subtrahend / img.alignment % 0x100 <= 3
    ensures DebugIs(DebugTable(img, subtrahend).value, subtrahend / img.alignment % 0x100, img.symbolsPath.value, img.segments)
  {
    hide NameFields, AlignAddend, HoldsName;
    var d, path, names := DebugTable(img, subtrahend).value, img.symbolsPath.value, NameFields(img.segments);
    var at, t := 3 + |path|, [subtrahend / img.alignment % 0x100, |path|] + path + [0] + names;
    assert d == t + Zeros(AlignAddend(|t|, 8));
    assert d[at..at + |names|] == names;
    forall i | 0 <= i < |img.segments| ensures NameIs(d, path, img.segments, i) {
      NameFieldAt(img.segments, i);
      assert d[at + 8 * i..at + 8 * i + 8] == d[at..at + |names|][8 * i..8 * i + 8];
    }
  }

  lemma SameDebug(d: seq<byte>, factor: nat, path: seq<byte>, s: seq<Segment>, t: seq<Segment>)
    requires DebugIs(d, factor, path, s) && |s| == |t| && forall i :: 0 <= i < |s| ==> s[i].name == t[i].name
    ensures DebugIs(d, factor, path, t)
  {
    hide HoldsName, AlignUp;
    forall i | 0 <= i < |t| ensures NameIs(d, path, t, i) {
      assert NameIs(d, path, s, i);
    }
  }

  /** The entry of a load table: its size in units of eight bytes, and its identifier in the top three bits. */
  lemma TableWords(out: Image, relocSize: nat, debugSize: nat)
    requires relocSize % 8 == 0 && debugSize % 8 == 0 && relocSize < TWO_32 && debugSize < TWO_32
    ensures var l, k := LoadTables(out, relocSize, debugSize), if out.relocs == [] then 0 else 4;
            && (out.relocs != [] ==> Load(l, 0, 4) == relocSize / 8)
            && (out.symbolsPath.Some? ==> Load(l, k, 4) == 0x2000_0000 + debugSize / 8)
  {
    hide ToLe, FromLe;
    var l, k := LoadTables(out, relocSize, debugSize), if out.relocs == [] then 0 else 4;
    Pow256Values();
    FromToLe(relocSize / 8, 4);
    FromToLe(0x2000_0000 + debugSize / 8, 4);
    if out.relocs != [] {
      assert l[0..4] == ToLe(relocSize / 8, 4);
    }
    if out.symbolsPath.Some? {
      assert l[k..k + 4] == ToLe(0x2000_0000 + debugSize / 8, 4);
    }
  }

  lemma TablesAt(out: Image, s: uint32, file: seq<byte>)
    requires Emitted(out, s, file)
    ensures out.alignment > 0
    ensures var at, rel := 16 + 8 * |out.segments|, if out.relocs != [] then 4 else 0;
            && at + rel + (if out.symbolsPath.Some? then 4 else 0) <= |file|
            && (rel > 0 ==> 0 < Load(file, at, 4) < 0x2000_0000)
            && (out.symbolsPath.Some? ==>
                  var d := (Load(file, at + rel, 4) - 0x2000_0000) * 8;
                  0 < d <= |file| && DebugIs(file[|file| - d..], s / out.alignment % 0x100, out.symbolsPath.value, out.segments))
  {
    hide FileBytes, Truncated, CheckedSegments, CheckedRelocs, Header16, SegmentTable, LoadTables, FromLe;
    hide RelocBytes, DebugTable, DebugIs, HeaderFits, Fixups, CheckedHeader, IsPow2, EmittedInto;
    PowerNotZero(out);
    EmittedFront(out, s, file);
    EmittedDebug(out, s, file);
    var r, d := |RelocBytes(out)|, DebugTable(out, s).value;
    EmittedSizes(out, s, file);
    TableWords(out, r, |d|);
    var at, l := 16 + 8 * |out.segments|, LoadTables(out, r, |d|);
    if out.relocs != [] {
      assert file[at..at + |l|][0..4] == file[at..at + 4];
    }
    if out.symbolsPath.Some? {
      var k := if out.relocs == [] then 0 else 4;
      assert file[at..at + |l|][k..k + 4] == file[at + k..at + k + 4];
      DebugTableIs(out, s);
      DebugNotEmpty(d, s / out.alignment % 0x100, out.symbolsPath.value, out.segments);
    }
  }

  /** Relocation table first, debug table last; the entries behind the segment table say how large they are. */
  lemma WireTables(img: Image, strip: bool)
    requires Checked(img) && EmitUe(img, strip).Some? && |EmitUe(img, strip).value.1| < TWO_32
    ensures var file := EmitUe(img, strip).value.1;
            var at, rel := 16 + 8 * |img.segments|, if img.relocs != [] && !strip then 4 else 0;
            && at + rel + (if img.symbolsPath.Some? then 4 else 0) <= |file|
            && (rel > 0 ==> 0 < Load(file, at, 4) < 0x2000_0000)
            && (img.symbolsPath.Some? ==>
                  var d := (Load(file, at + rel, 4) - 0x2000_0000) * 8;
                  && 0 < d <= |file|
                  && DebugIs(file[|file| - d..], img.segments[0].address / img.alignment % 0x100, img.symbolsPath.value, img.segments))
  {
    hide Prepared, FileBytes, Truncated, CheckedSegments, CheckedRelocs, ShiftRelocs, Load, DebugIs;
    CheckedSome(img);
    PowerNotZero(img);
    var (out, file) := EmitUe(img, strip).value;
    var s := img.segments[0].address;
    PreparedEmittable(img, strip);
    PreparedFields(img, strip);
    ShiftedTargets(img);
    TablesAt(out, s, file);
    if img.symbolsPath.Some? {
      var d := (Load(file, 16 + 8 * |img.segments| + (if out.relocs != [] then 4 else 0), 4) - 0x2000_0000) * 8;
      SameDebug(file[|file| - d..], s / img.alignment % 0x100, img.symbolsPath.value, out.segments, img.segments);
    }
  }

  lemma EmittedSizes(out: Image, subtrahend: uint32, file: seq<byte>)
    requires Emitted(out, subtrahend, file)
    ensures HeaderFits(out) && Fixups(out).Some? && DebugTable(out, subtrahend).Some?
    ensures |RelocBytes(out)| + |DebugTable(out, subtrahend).value| <= |file|
  {
    hide FileBytes, RelocBytes, DebugTable, Fixups, Body, PackedSegments, CheckedSegment, CheckedRelocs, Truncated, Prefix;
    EmittedSlices(out, subtrahend, file);
  }

  lemma DebugNotEmpty(d: seq<byte>, factor: nat, path: seq<byte>, segs: seq<Segment>)
    requires DebugIs(d, factor, path, segs)
    ensures |d| > 0
  {
  }

  // ---------------------------------------------------------------- fixups

  /**
   * How each relocation is described. Its type is 1 for 64 bits, 0 for 32 bits, and 2 for a 32-bit word that cannot be
   * chained; a root starts the table and follows every gap of more than 0xFFE bytes, a chain goes on while the type stays
   * the same, and everything else is a further head.
   */
  lemma PlanRules(segs: seq<Segment>, relocs: seq<Reloc>, chaining: bool, k: nat)
    requires AllHold(segs, relocs) && Ordered(relocs) && Plan(segs, relocs, chaining).Some? && k < |relocs|
    ensures CheckedReloc(segs, relocs[k])
    ensures var fs, r := Plan(segs, relocs, chaining).value, relocs[k];
            var f, w := fs[k], ReadWord(segs, r.target, RelocSize(r.ty));
            var gap := r.target - if k == 0 then 0 else relocs[k - 1].End();
            && f.reloc == r && f.value == w && f.offset == gap
            && f.ty == (if r.ty == 10 then 1 else if chaining && w >= 0x10_0000 then 2 else 0)
            && f.kind == (if k == 0 || gap > 0xFFE then Root
                          else if chaining && f.ty != 2 && f.ty == fs[k - 1].ty then Link
                          else Head)
  {
    hide Pack32, Pack64, Holds;
    var fs := Plan(segs, relocs, chaining).value;
    assert CheckedReloc(segs, relocs[k]);
    PlanPlanned(segs, relocs, chaining);
    assert PlannedAt(segs, fs, chaining, k);
    Fits32Iff(fs[k].value);
    Fits64Iff(fs[k].value);
  }

  /** Later writes do not change a packed word. */
  lemma {:induction false} ReadPacked(segs: seq<Segment>, fs: seq<Fixup>, chaining: bool, i: nat, k: nat)
    requires Planned(segs, fs, chaining) && FixupsHold(segs, fs) && i <= k < |fs|
    ensures var f := fs[k];
            && Holds(Chained(segs, fs, chaining, i), f.reloc.target, f.Size())
            && ReadWord(Chained(segs, fs, chaining, i), f.reloc.target, f.Size())
               == if Packed(f, chaining) then Word(f, Chain(fs, k)) else f.value
    decreases k - i
  {
    hide Word, Holds, Next;
    var f := fs[k];
    if i == k {
      ReadFixup(segs, fs, chaining, k);
      if Packed(f, chaining) {
        UndoFixup(segs, fs, chaining, k);
      }
    } else {
      ReadPacked(segs, fs, chaining, i + 1, k);
      if Packed(fs[i], chaining) {
        var t, g := Chained(segs, fs, chaining, i + 1), fs[i];
        assert CheckedReloc(segs, g.reloc);
        SameLocate(segs, t, g.reloc.target);
        TargetsOrdered(segs, fs, chaining, i, k);
        ReadWriteOther(t, g.reloc.target, g.Size(), Word(g, Chain(fs, i)), f.reloc.target, f.Size());
      }
    }
  }

  lemma ShiftBack(w: nat, offset: nat)
    requires w < TWO_32 && offset < 0x1000 && (w * 0x10 % TWO_32) % 0x1_0000 == offset * 0x10
    ensures w % 0x1000 == offset
  {
  }

  lemma PackedWord(fs: seq<Fixup>, chaining: bool, k: nat)
    requires k < |fs| && Facts(fs, chaining, k) && (k + 1 < |fs| ==> Facts(fs, chaining, k + 1))
    requires Packed(fs[k], chaining)
    ensures var linked := k + 1 < |fs| && fs[k + 1].kind.Link?;
            var next := if linked then fs[k + 1].offset else 0xFFF;
            Word(fs[k], Chain(fs, k))
            == if fs[k].ty == 1 then fs[k].value * 0x1_0000 + next * 0x10 + (if linked then 1 else 0)
               else fs[k].value * 0x1000 + next
  {
    hide Word;
    WordBounds(fs, chaining, k);
    if fs[k].ty == RELOC_32 {
      Pow256Values();
      ShiftBack(Word(fs[k], Chain(fs, k)), if Chain(fs, k).Some? then Chain(fs, k).value.offset else OFFSET_END);
    }
  }

  /**
   * The relocated words as they are written: with chains, the value is shifted to make room for the offset and type of
   * the next fixup, or for the end mark; without chains, and for type 2, it stays as it is.
   */
  lemma WordRules(segs: seq<Segment>, relocs: seq<Reloc>, chaining: bool, k: nat)
    requires AllHold(segs, relocs) && Ordered(relocs) && Plan(segs, relocs, chaining).Some? && k < |relocs|
    ensures var fs := Plan(segs, relocs, chaining).value; FixupsHold(segs, fs)
    ensures var fs, r := Plan(segs, relocs, chaining).value, relocs[k];
            var t, f := Chained(segs, fs, chaining, 0), fs[k];
            var linked := k + 1 < |fs| && fs[k + 1].kind.Link?;
            var next := if linked then fs[k + 1].offset else 0xFFF;
            && Holds(t, r.target, RelocSize(r.ty))
            && ReadWord(t, r.target, RelocSize(r.ty))
               == if !chaining || f.ty == 2 then f.value
                  else if f.ty == 1 then f.value * 0x1_0000 + next * 0x10 + (if linked then 1 else 0)
                  else f.value * 0x1000 + next
  {
    hide Plan, Planned, Holds, Word, Chained, Chain, AllHold, Ordered, Facts, FixupsHold;
    var fs := Plan(segs, relocs, chaining).value;
    PlanPlanned(segs, relocs, chaining);
    PlannedHolds(segs, fs, chaining);
    ReadPacked(segs, fs, chaining, 0, k);
    PlannedFacts(segs, fs, chaining, k);
    if Packed(fs[k], chaining) {
      if k + 1 < |fs| {
        PlannedFacts(segs, fs, chaining, k + 1);
      }
      PackedWord(fs, chaining, k);
    }
  }
}
