/** Scanning an emitted UE file gives back the image it was emitted from (the output validation of ImageToolEmit.c). */
module UeEndToEnd {
  import opened Bytes
  import opened Image
  import opened Truncation
  import opened UeFixups
  import opened UeBody
  import opened UeFormat
  import opened UeFile
  import opened UeLoad

  // ---------------------------------------------------------------- names and sizes do not matter to the bytes

  ghost predicate Relabelled(s: seq<Segment>, t: seq<Segment>) {
    |s| == |t| && forall i :: 0 <= i < |s| ==> t[i] == s[i].(name := t[i].name, unpaddedSize := t[i].unpaddedSize)
  }

  lemma RelabelledRead(s: seq<Segment>, t: seq<Segment>, a: nat)
    requires Relabelled(s, t)
    ensures Locate(s, a) == Locate(t, a)
    ensures forall n: nat :: Holds(s, a, n) == Holds(t, a, n)
    ensures forall n: nat :: Holds(s, a, n) ==> ReadWord(s, a, n) == ReadWord(t, a, n)
  {
    var i, j := Locate(s, a), Locate(t, a);
    assert i < |s| ==> InSegment(t[i], a);
    assert j < |t| ==> InSegment(s[j], a);
  }

  lemma RelabelledHold(s: seq<Segment>, t: seq<Segment>, relocs: seq<Reloc>)
    requires Relabelled(s, t) && AllHold(s, relocs)
    ensures AllHold(t, relocs)
  {
    forall i | 0 <= i < |relocs| ensures CheckedReloc(t, relocs[i]) {
      assert CheckedReloc(s, relocs[i]);
      RelabelledRead(s, t, relocs[i].target);
    }
  }

  lemma {:induction false} RelabelledPlan(s: seq<Segment>, t: seq<Segment>, relocs: seq<Reloc>, chaining: bool)
    requires Relabelled(s, t) && AllHold(s, relocs) && AllHold(t, relocs) && Ordered(relocs)
    ensures Plan(s, relocs, chaining) == Plan(t, relocs, chaining)
    decreases |relocs|
  {
    hide Next, Holds, ReadWord;
    if relocs != [] {
      var n := |relocs| - 1;
      RelabelledPlan(s, t, relocs[..n], chaining);
      RelabelledRead(s, t, relocs[n].target);
      assert CheckedReloc(s, relocs[n]);
    }
  }

  /** t with the names and sizes of labels. */
  ghost predicate LabelledFrom(s: seq<Segment>, labels: seq<Segment>, t: seq<Segment>) {
    && |s| == |labels| == |t|
    && forall i :: 0 <= i < |s| ==> t[i] == s[i].(name := labels[i].name, unpaddedSize := labels[i].unpaddedSize)
  }

  lemma {:induction false} RelabelledChained(s: seq<Segment>, t: seq<Segment>, fs: seq<Fixup>, chaining: bool, k: nat)
    requires Relabelled(s, t) && FixupsHold(s, fs) && FixupsHold(t, fs) && k <= |fs|
    ensures LabelledFrom(Chained(s, fs, chaining, k), t, Chained(t, fs, chaining, k))
    decreases |fs| - k
  {
    hide Word, Holds;
    if k < |fs| {
      RelabelledChained(s, t, fs, chaining, k + 1);
      if Packed(fs[k], chaining) {
        var u, v, a := Chained(s, fs, chaining, k + 1), Chained(t, fs, chaining, k + 1), fs[k].reloc.target;
        assert CheckedReloc(s, fs[k].reloc) && CheckedReloc(t, fs[k].reloc);
        SameLocate(s, u, a);
        SameLocate(t, v, a);
        RelabelledRead(s, t, a);
      }
    }
  }

  // ---------------------------------------------------------------- the segments load as they were packed

  ghost predicate ZeroTails(segs: seq<Segment>) {
    forall i :: 0 <= i < |segs| ==> ZeroTail(segs[i])
  }

  ghost predicate ZeroTail(s: Segment) {
    s.unpaddedSize <= |s.data| && forall j :: s.unpaddedSize <= j < |s.data| ==> s.data[j] == 0
  }

  function Bare(s: Segment): Segment { s.(name := None, unpaddedSize := 0) }

  lemma BareLoads(s: Segment)
    requires ZeroTail(s) && Permissions(s).Some?
    ensures EntrySegment(EntryOf(s), s.data[..s.unpaddedSize], s.address) == Bare(s)
  {
    PaddedSegment(s);
  }

  lemma {:induction false} VerifyEmitted(segs: seq<Segment>, alignment: nat, address: nat)
    requires Tiled(segs, alignment, address) && ZeroTails(segs) && AllPermitted(segs)
    ensures VerifyEntries(Entries(segs), alignment, address)
            == Some(if segs == [] then address else ImageSize(segs))
    ensures Sized(segs) && StoredSize(Entries(segs)) == |Body(segs)|
    decreases |segs|
  {
    if segs != [] {
      assert ZeroTail(segs[0]);
      VerifyEmitted(segs[1..], alignment, segs[0].End());
      assert Entries(segs)[1..] == Entries(segs[1..]);
    }
  }

  lemma {:induction false} BodyLoads(segs: seq<Segment>, rest: seq<byte>, alignment: nat, address: uint32, i: nat)
    requires Tiled(segs, alignment, address) && ZeroTails(segs) && AllPermitted(segs) && Sized(segs) && i < |segs|
    requires VerifyEntries(Entries(segs), alignment, address).Some?
    requires StoredSize(Entries(segs)) <= |Body(segs) + rest|
    ensures LoadEntries(Entries(segs), Body(segs) + rest, alignment, address)[i] == Bare(segs[i])
    decreases |segs|
  {
    var s, bytes := segs[0], Body(segs) + rest;
    assert ZeroTail(s);
    BareLoads(s);
    assert bytes[..s.unpaddedSize] == s.data[..s.unpaddedSize];
    if i > 0 {
      assert bytes[s.unpaddedSize..] == Body(segs[1..]) + rest;
      assert Entries(segs)[1..] == Entries(segs[1..]);
      BodyLoads(segs[1..], rest, alignment, s.End(), i - 1);
    }
  }

  lemma {:induction false} CheckedTiled(segs: seq<Segment>, alignment: nat, k: nat)
    requires CheckedSegments(segs, alignment) && segs[0].address == 0 && k <= |segs|
    ensures Tiled(segs[k..], alignment, if k == 0 then 0 else segs[k - 1].End())
    decreases |segs| - k
  {
    if k < |segs| {
      assert CheckedSegment(segs, alignment, k);
      CheckedTiled(segs, alignment, k + 1);
      assert segs[k..][1..] == segs[k + 1..];
    }
  }

  // ---------------------------------------------------------------- the context of an emitted file

  lemma Slices(a: seq<byte>, b: seq<byte>, c: seq<byte>, d: seq<byte>)
    ensures var f := a + b + c + d;
            && f[..|a|] == a && f[|a|..|a| + |b|] == b
            && f[|a| + |b|..|a| + |b| + |c|] == c && f[|a| + |b| + |c|..] == d
  {
  }

  ghost function Tables(img: Image, relocSize: nat, debugSize: nat): seq<nat> {
    (if img.relocs != [] then [LoadTable(TABLE_RELOC, relocSize)] else [])
    + if img.symbolsPath.Some? then [LoadTable(TABLE_DEBUG, debugSize)] else []
  }

  lemma TablesRead(img: Image, relocSize: nat, debugSize: nat)
    requires relocSize < TWO_32 && relocSize % 8 == 0 && debugSize < TWO_32 && debugSize % 8 == 0
    ensures ReadInfos(LoadTables(img, relocSize, debugSize), NumTables(img)) == Tables(img, relocSize, debugSize)
  {
    var x, y := LoadTable(TABLE_RELOC, relocSize), LoadTable(TABLE_DEBUG, debugSize);
    LoadTableFields(TABLE_RELOC, relocSize);
    LoadTableFields(TABLE_DEBUG, debugSize);
    Pow256Values();
    FromToLe(x, 4);
    FromToLe(y, 4);
    hide LoadTable, ToLe, FromLe;
    var t := LoadTables(img, relocSize, debugSize);
    if img.relocs != [] {
      assert t[0..4] == ToLe(x, 4);
      if img.symbolsPath.Some? {
        assert t[4..] == ToLe(y, 4) && t[4..][0..4] == ToLe(y, 4);
        assert t[4..][4..] == [];
        assert ReadInfos(t[4..], 1) == [y];
      }
    } else if img.symbolsPath.Some? {
      assert t[0..4] == ToLe(y, 4);
      assert t[4..] == [];
    }
  }

  lemma TablesVerify(img: Image, relocSize: nat, debugSize: nat, at: nat)
    requires relocSize % 8 == 0 && debugSize % 8 == 0 && at + relocSize + debugSize < TWO_32
    requires (img.relocs == [] ==> relocSize == 0) && (img.symbolsPath.None? ==> debugSize == 0)
    ensures VerifyTables(Tables(img, relocSize, debugSize), -1, at) == Some(at + relocSize + debugSize)
  {
    hide LoadTable, TableId, TableSize, VerifyTables;
    LoadTableFields(TABLE_RELOC, relocSize);
    LoadTableFields(TABLE_DEBUG, debugSize);
    var tail := if img.symbolsPath.Some? then [LoadTable(TABLE_DEBUG, debugSize)] else [];
    assert Tables(img, relocSize, debugSize)
        == (if img.relocs != [] then [LoadTable(TABLE_RELOC, relocSize)] else []) + tail;
    DebugVerifies(LoadTable(TABLE_DEBUG, debugSize), img.symbolsPath.Some?, -1, at, debugSize);
    DebugVerifies(LoadTable(TABLE_DEBUG, debugSize), img.symbolsPath.Some?, TABLE_RELOC, at + relocSize, debugSize);
    if img.relocs != [] {
      VerifyCons(LoadTable(TABLE_RELOC, relocSize), tail, -1, at);
    } else {
      assert [] + tail == tail;
    }
  }

  lemma DebugVerifies(info: nat, present: bool, prevId: int, at: nat, size: nat)
    requires TableId(info) == TABLE_DEBUG && TableSize(info) == size && prevId < TABLE_DEBUG && at + size < TWO_32
    requires !present ==> size == 0
    ensures VerifyTables(if present then [info] else [], prevId, at) == Some(at + size)
  {
    assert [info][1..] == [];
  }

  lemma VerifyCons(info: nat, rest: seq<nat>, prevId: int, at: nat)
    requires prevId < TableId(info) && at + TableSize(info) < TWO_32
    ensures VerifyTables([info] + rest, prevId, at) == VerifyTables(rest, TableId(info), at + TableSize(info))
  {
    assert ([info] + rest)[1..] == rest;
  }

  lemma AlignmentPages(alignment: nat)
    requires IsPow2(alignment) && 12 <= Exponent(alignment) <= 27
    ensures alignment % 0x1000 == 0
  {
    AlignmentRange(Exponent(alignment) - 12);
  }

  lemma EmittedStorable(img: Image)
    requires Emittable(img) && HeaderFits(img)
    ensures Storable(img.segments)
  {
    AlignmentPages(img.alignment);
    forall i | 0 <= i < |img.segments| ensures StorableSegment(img.segments[i]) {
      assert CheckedSegment(img.segments, img.alignment, i);
      assert TruncatedSegment(img.segments[i], img.relocs);
      PageAligned(|img.segments[i].data|, img.alignment);
    }
  }

  lemma InfoReads(img: Image)
    requires Checked(img) && HeaderFits(img)
    ensures var info := InfoField(img);
            && info * 0x1000 % TWO_64 == img.header.baseAddress
            && info / BIT_56 % 2 == 0
            && (info / BIT_57 % 2 == 1 <==> img.header.fixedAddress)
            && (info / BIT_58 % 2 == 1 <==> img.relocsStripped)
            && (info / BIT_59 % 2 == 1 <==> Chaining(img.header))
            && Pow2(info / BIT_60 + 12) == img.alignment
  {
    AlignmentPages(img.alignment);
    PageAligned(img.header.baseAddress, img.alignment);
    ImageInfoFields(img.header.baseAddress, img.header.fixedAddress, img.relocsStripped, Chaining(img.header),
                    Exponent(img.alignment));
  }

  /** The header fields of an emitted file. */
  lemma HeaderReads(img: Image, rest: seq<byte>)
    requires Checked(img) && HeaderFits(img)
    ensures var f := Header16(img) + rest;
            && Load(f, 0, 2) == MAGIC && f[2] == TypeField(img) && f[3] == CountsField(img)
            && Load(f, 4, 4) == img.header.entryPoint && Load(f, 8, 8) == InfoField(img)
  {
    var h := Header16(img);
    FileHeaderFields(TypeField(img), CountsField(img), img.header.entryPoint, InfoField(img));
    LoadAppend(h, rest, 0, 2);
    LoadAppend(h, rest, 4, 4);
    LoadAppend(h, rest, 8, 8);
  }

  lemma FieldsSplit(img: Image)
    requires HeaderFitsFields(img)
    ensures CountsField(img) / 8 + 1 == |img.segments| && CountsField(img) % 8 == NumTables(img)
    ensures TypeField(img) / 8 == UeMachine(img.header.machine).value < |PE_MACHINES|
    ensures PE_MACHINES[TypeField(img) / 8] == img.header.machine
    ensures TypeField(img) % 8 == SubsystemField(img.header.subsystem)
  {
  }

  predicate HeaderFitsFields(img: Image) {
    && 0 < |img.segments| <= MAX_SEGMENTS
    && UeMachine(img.header.machine).Some?
    && SubsystemField(img.header.subsystem) < 8
  }

  lemma EmittedZeroTails(img: Image)
    requires Emittable(img)
    ensures ZeroTails(img.segments) && Tiled(img.segments, img.alignment, 0) && Sized(img.segments)
  {
    forall i | 0 <= i < |img.segments| ensures ZeroTail(img.segments[i]) {
      assert TruncatedSegment(img.segments[i], img.relocs);
    }
    CheckedTiled(img.segments, img.alignment, 0);
    assert img.segments[0..] == img.segments;
    TruncatedSized(img.segments, img.relocs);
  }

  ghost function EmittedContext(img: Image, relocSize: nat, debugSize: nat): (c: Context)
    requires Checked(img) && HeaderFits(img)
  {
    var bodyAt := HEADER_SIZE + SEGMENT_HEADER_SIZE * |img.segments| + 4 * NumTables(img);
    var entries := Entries(img.segments);
    Context(img.header.(subsystem := SubsystemField(img.header.subsystem) + 10), img.alignment, img.relocsStripped,
            Chaining(img.header), entries, Tables(img, relocSize, debugSize), bodyAt,
            AlignUp(bodyAt + StoredSize(entries), 8), ImageSize(img.segments))
  }

  /** The header of the file says what the context says. */
  ghost predicate HeaderSays(file: seq<byte>, c: Context, n: nat, t: nat) {
    && |file| >= HEADER_SIZE + SEGMENT_HEADER_SIZE
    && Load(file, 0, 2) == MAGIC
    && file[3] / 8 + 1 == n && file[3] % 8 == t
    && file[2] / 8 < |PE_MACHINES| && PE_MACHINES[file[2] / 8] == c.header.machine
    && file[2] % 8 + 10 == c.header.subsystem
    && Load(file, 4, 4) == c.header.entryPoint
    && InfoSays(Load(file, 8, 8), c)
  }

  ghost predicate InfoSays(info: nat, c: Context) {
    && info < TWO_64
    && info * 0x1000 % TWO_64 == c.header.baseAddress
    && info / BIT_56 % 2 == 0
    && (info / BIT_57 % 2 == 1 <==> c.header.fixedAddress)
    && (info / BIT_58 % 2 == 1 <==> c.relocsStripped)
    && (info / BIT_59 % 2 == 1 <==> c.chained)
    && Pow2(info / BIT_60 + 12) == c.alignment
  }

  /** The tables of the file say what the context says, and pass the loader's checks. */
  ghost predicate TablesSay(file: seq<byte>, c: Context, n: nat, t: nat) {
    var tablesAt := HEADER_SIZE + SEGMENT_HEADER_SIZE * n;
    && c.bodyAt == tablesAt + 4 * t <= |file|
    && ReadEntries(file[HEADER_SIZE..tablesAt], n) == c.entries
    && ReadInfos(file[tablesAt..c.bodyAt], t) == c.tables
    && VerifyEntries(c.entries, c.alignment, 0) == Some(c.imageSize)
    && c.loadAt == AlignUp(c.bodyAt + StoredSize(c.entries), 8) <= |file|
    && Aligned(c.header.baseAddress, c.alignment)
    && c.header.entryPoint <= c.imageSize
    && VerifyTables(c.tables, -1, c.loadAt) == Some(|file|)
  }

  lemma ParseSays(file: seq<byte>, c: Context, n: nat, t: nat)
    requires HeaderSays(file, c, n, t) && TablesSay(file, c, n, t)
    ensures ParseContext(file) == Some(c)
  {
    hide Load, AlignUp, ReadEntries, ReadInfos, VerifyEntries, VerifyTables, StoredSize, Pow2, Aligned;
  }

  lemma HeaderSaysEmitted(img: Image, relocSize: nat, debugSize: nat, rest: seq<byte>)
    requires Checked(img) && HeaderFits(img) && |rest| >= 8
    ensures HeaderSays(Header16(img) + rest, EmittedContext(img, relocSize, debugSize), |img.segments|, NumTables(img))
  {
    hide Load, AlignUp, Header16, Entries, Tables, StoredSize, CheckedSegment, CheckedRelocs, Chaining, Pow2, UeMachine;
    hide InfoField, TypeField, CountsField, NumTables, SubsystemField, IsPow2, Exponent;
    HeaderReads(img, rest);
    InfoReads(img);
    FieldsSplit(img);
  }

  lemma TablesSayEmitted(img: Image, relocSize: nat, debugSize: nat, h: seq<byte>, rest: seq<byte>)
    requires Emittable(img) && HeaderFits(img) && |h| == HEADER_SIZE
    requires relocSize % 8 == 0 && debugSize % 8 == 0
    requires (img.relocs == [] ==> relocSize == 0) && (img.symbolsPath.None? ==> debugSize == 0)
    requires var file := h + SegmentTable(img.segments) + LoadTables(img, relocSize, debugSize) + rest;
             EmittedContext(img, relocSize, debugSize).loadAt + relocSize + debugSize == |file| < TWO_32
    ensures TablesSay(h + SegmentTable(img.segments) + LoadTables(img, relocSize, debugSize) + rest,
                      EmittedContext(img, relocSize, debugSize), |img.segments|, NumTables(img))
  {
    hide AlignUp, SegmentTable, LoadTables, ReadEntries, Entries, ReadInfos, Tables, VerifyEntries, VerifyTables;
    hide StoredSize, CheckedSegment, CheckedRelocs, Chaining, SubsystemField, NumTables, Tiled, Sized, ZeroTails;
    hide Truncated, Body, Storable, IsPow2, Exponent, Aligned;
    var c := EmittedContext(img, relocSize, debugSize);
    Slices(h, SegmentTable(img.segments), LoadTables(img, relocSize, debugSize), rest);
    EmittedStorable(img);
    SegmentTableRoundTrip(img.segments);
    EmittedZeroTails(img);
    VerifyEmitted(img.segments, img.alignment, 0);
    TablesRead(img, relocSize, debugSize);
    TablesVerify(img, relocSize, debugSize, c.loadAt);
  }

  /** The loader accepts an emitted file and reads every field of it back. */
  lemma ParseEmitted(img: Image, relocSize: nat, debugSize: nat, rest: seq<byte>)
    requires Emittable(img) && HeaderFits(img)
    requires relocSize % 8 == 0 && debugSize % 8 == 0
    requires (img.relocs == [] ==> relocSize == 0) && (img.symbolsPath.None? ==> debugSize == 0)
    requires EmittedContext(img, relocSize, debugSize).loadAt + relocSize + debugSize
          == |Prefix(img, relocSize, debugSize) + rest| < TWO_32
    ensures ParseContext(Prefix(img, relocSize, debugSize) + rest) == Some(EmittedContext(img, relocSize, debugSize))
  {
    hide Header16, SegmentTable, LoadTables, CheckedSegment, CheckedRelocs, HeaderSays, TablesSay, ParseContext;
    hide Truncated, NumTables, IsPow2, Exponent, EmittedContext, CheckedHeader, AllPermitted, UeMachine;
    var h, s, l := Header16(img), SegmentTable(img.segments), LoadTables(img, relocSize, debugSize);
    assert h + s + l + rest == h + (s + l + rest);
    HeaderSaysEmitted(img, relocSize, debugSize, s + l + rest);
    TablesSayEmitted(img, relocSize, debugSize, h, rest);
    ParseSays(h + s + l + rest, EmittedContext(img, relocSize, debugSize), |img.segments|, NumTables(img));
  }
}
