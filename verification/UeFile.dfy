/** Whole UE files: what the emitter writes and what the loader and scanner make of a file (UeEmit.c, UeImageLib.c, UeScan.c). */
module UeFile {
  import opened Bytes
  import opened Image
  import opened StripPrefix
  import opened Truncation
  import opened UeFixups
  import opened UeChains
  import opened UeRoundTrip
  import opened UeBody
  import opened UeFormat

  // ---------------------------------------------------------------- emission

  /** What ToolImageEmitUe has established when it calls ToolImageEmitUeFile. */
  ghost predicate Emittable(img: Image) {
    Checked(img) && img.segments[0].address == 0 && Truncated(img.segments, img.relocs)
  }

  /** The subsystem as the 8-bit value the emitter computes. */
  function SubsystemField(subsystem: uint16): (r: byte) { (subsystem - 10) % 0x100 }

  predicate Chaining(h: Header) { h.baseAddress == 0 && !h.fixedAddress }

  /** strncpy of at most 8 bytes into a zeroed field whose last byte is then cleared. */
  function NameField(name: seq<byte>): (f: seq<byte>)
    ensures |f| == 8
  {
    var m := if |name| < 7 then |name| else 7;
    name[..m] + Zeros(8 - m)
  }

  /** The field holds at most seven bytes of the name, then zeros. */
  ghost predicate HoldsName(field: seq<byte>, name: Option<seq<byte>>) {
    && |field| == 8
    && forall i :: 0 <= i < 8 ==> field[i] == if i < 7 && name.Some? && i < |name.value| then name.value[i] else 0
  }

  predicate Named(segs: seq<Segment>) { forall i :: 0 <= i < |segs| ==> segs[i].name.Some? }

  function NameFields(segs: seq<Segment>): (t: seq<byte>)
    requires Named(segs)
    ensures |t| == 8 * |segs|
  {
    if segs == [] then [] else NameField(segs[0].name.value) + NameFields(segs[1..])
  }

  /** ToolImageEmitUeDebugTable; None is its failure result or a missing name. */
  function DebugTable(img: Image, subtrahend: uint32): (t: Option<seq<byte>>)
    requires img.alignment > 0
    ensures t.Some? ==> |t.value| % 8 == 0 && (img.symbolsPath.None? ==> t.value == [])
  {
    if img.symbolsPath.None? then Some([])
    else
      var factor := subtrahend / img.alignment % 0x100;
      var path := img.symbolsPath.value;
      if factor > 3 || |path| > 0xFF || !Named(img.segments) then None
      else
        var t := [factor, |path|] + path + [0] + NameFields(img.segments);
        Some(t + Zeros(AlignAddend(|t|, 8)))
  }

  /** The checks ToolImageEmitUeFile makes before it writes anything. */
  predicate HeaderFits(img: Image)
    requires IsPow2(img.alignment)
  {
    && |img.segments| <= MAX_SEGMENTS
    && img.hiiData == []
    && 12 <= Exponent(img.alignment) <= 27
    && UeMachine(img.header.machine).Some?
    && SubsystemField(img.header.subsystem) < 8
    && AllPermitted(img.segments)
  }

  function NumTables(img: Image): nat {
    (if img.relocs != [] then 1 else 0) + if img.symbolsPath.Some? then 1 else 0
  }

  function InfoField(img: Image): (info: uint64)
    requires IsPow2(img.alignment) && 12 <= Exponent(img.alignment) <= 27
  {
    var e := Exponent(img.alignment);
    InfoBase(img.header.baseAddress / 0x1000, Bit(img.header.fixedAddress), Bit(img.relocsStripped),
             Bit(Chaining(img.header)), e - 12);
    ImageInfo(img.header.baseAddress, img.header.fixedAddress, img.relocsStripped, Chaining(img.header), e)
  }

  function TypeField(img: Image): (ty: byte)
    requires UeMachine(img.header.machine).Some? && SubsystemField(img.header.subsystem) < 8
  {
    UeMachine(img.header.machine).value * 8 + SubsystemField(img.header.subsystem)
  }

  function CountsField(img: Image): (counts: byte)
    requires 0 < |img.segments| <= MAX_SEGMENTS
  {
    NumTables(img) + (|img.segments| - 1) * 8
  }

  function Header16(img: Image): (h: seq<byte>)
    requires IsPow2(img.alignment) && 12 <= Exponent(img.alignment) <= 27 && 0 < |img.segments| <= MAX_SEGMENTS
    requires UeMachine(img.header.machine).Some? && SubsystemField(img.header.subsystem) < 8
    ensures |h| == HEADER_SIZE
  {
    FileHeader(TypeField(img), CountsField(img), img.header.entryPoint, InfoField(img))
  }

  function LoadTables(img: Image, relocSize: nat, debugSize: nat): (t: seq<byte>)
    ensures |t| == 4 * NumTables(img)
  {
    (if img.relocs != [] then ToLe(LoadTable(TABLE_RELOC, relocSize), 4) else [])
    + if img.symbolsPath.Some? then ToLe(LoadTable(TABLE_DEBUG, debugSize), 4) else []
  }

  /** The relocation fixups of the image; None when a 64-bit value cannot be chained. */
  ghost function Fixups(img: Image): (p: Option<seq<Fixup>>)
    requires Checked(img)
  {
    Plan(img.segments, img.relocs, Chaining(img.header))
  }

  lemma FixupsFacts(img: Image)
    requires Checked(img) && Fixups(img).Some?
    ensures var fs := Fixups(img).value;
            && FixupsHold(img.segments, fs) && WellFormed(fs) && |fs| == |img.relocs|
            && forall k :: 0 <= k < |fs| ==> fs[k].reloc == img.relocs[k]
  {
    var fs, chaining := Fixups(img).value, Chaining(img.header);
    PlanPlanned(img.segments, img.relocs, chaining);
    PlannedHolds(img.segments, fs, chaining);
    PlannedWellFormed(img.segments, fs, chaining);
  }

  /** The segments with their chain metadata: what the emitted file holds. */
  ghost function PackedSegments(img: Image): (t: seq<Segment>)
    requires Checked(img) && Fixups(img).Some?
    ensures SameShape(img.segments, t)
  {
    FixupsFacts(img);
    Chained(img.segments, Fixups(img).value, Chaining(img.header), 0)
  }

  lemma PackedSized(img: Image)
    requires Emittable(img) && Fixups(img).Some?
    ensures Sized(PackedSegments(img))
  {
    TruncatedSized(img.segments, img.relocs);
  }

  /** Everything before the segments' bytes. */
  ghost function Prefix(img: Image, relocSize: nat, debugSize: nat): (p: seq<byte>)
    requires IsPow2(img.alignment) && HeaderFits(img) && img.segments != []
    ensures |p| == HEADER_SIZE + SEGMENT_HEADER_SIZE * |img.segments| + 4 * NumTables(img)
  {
    Header16(img) + SegmentTable(img.segments) + LoadTables(img, relocSize, debugSize)
  }

  /** ToolImageEmitUeFile as a function of the image; None is the failure result. */
  ghost function FileBytes(img: Image, subtrahend: uint32): (file: Option<seq<byte>>)
    requires Emittable(img)
  {
    var debug := DebugTable(img, subtrahend);
    if !HeaderFits(img) || Fixups(img).None? || debug.None? then None
    else
      FixupsFacts(img);
      PackedSized(img);
      var table := PaddedTable(Fixups(img).value);
      var p := Prefix(img, |table|, |debug.value|) + Body(PackedSegments(img));
      Some(p + Zeros(AlignAddend(|p|, 8)) + table + debug.value)
  }

  // ---------------------------------------------------------------- the loader's context

  datatype Context = Context(
    header: Header,
    alignment: uint32,
    relocsStripped: bool,
    chained: bool,
    entries: seq<Entry>,
    tables: seq<nat>,
    bodyAt: nat,
    loadAt: nat,
    imageSize: nat
  )

  /** InternalVerifySegments: the size of the image, if every segment is well-formed. */
  function VerifyEntries(es: seq<Entry>, alignment: nat, address: nat): (size: Option<nat>)
    ensures size.Some? ==> address <= size.value
  {
    if es == [] then Some(address)
    else if es[0].fileSize > es[0].size || !Aligned(es[0].size, alignment) || address + es[0].size >= TWO_32 then None
    else VerifyEntries(es[1..], alignment, address + es[0].size)
  }

  function StoredSize(es: seq<Entry>): nat {
    if es == [] then 0 else es[0].fileSize + StoredSize(es[1..])
  }

  /** InternalVerifyLoadTables: where the last table ends, if identifiers ascend and no size overflows. */
  function VerifyTables(infos: seq<nat>, prevId: int, at: nat): (end: Option<nat>)
    ensures end.Some? ==> at <= end.value
  {
    if infos == [] then Some(at)
    else if prevId >= TableId(infos[0]) || at + TableSize(infos[0]) >= TWO_32 then None
    else VerifyTables(infos[1..], TableId(infos[0]), at + TableSize(infos[0]))
  }

  function ReadInfos(bytes: seq<byte>, n: nat): (infos: seq<nat>)
    requires |bytes| == 4 * n
    ensures |infos| == n
  {
    if n == 0 then [] else [Load(bytes, 0, 4)] + ReadInfos(bytes[4..], n - 1)
  }

  /** UeInitializeContextPreHash and UeInitializeContextPostHash for a file that is not XIP. */
  function ParseContext(file: seq<byte>): (c: Option<Context>)
    ensures c.Some? ==>
      && c.value.entries != []
      && c.value.alignment % 0x1000 == 0 && IsPow2(c.value.alignment)
      && VerifyEntries(c.value.entries, c.value.alignment, 0) == Some(c.value.imageSize)
      && c.value.bodyAt + StoredSize(c.value.entries) <= c.value.loadAt <= |file|
      && VerifyTables(c.value.tables, -1, c.value.loadAt) == Some(|file|)
  {
    if |file| < HEADER_SIZE + SEGMENT_HEADER_SIZE || Load(file, 0, 2) != MAGIC then None
    else
      Pow256Values();
      var info := Load(file, 8, 8);
      var n, t := file[3] / 8 + 1, file[3] % 8;
      var tablesAt := HEADER_SIZE + SEGMENT_HEADER_SIZE * n;
      var bodyAt := tablesAt + 4 * t;
      if info / BIT_56 % 2 == 1 || bodyAt > |file| || file[2] / 8 >= |PE_MACHINES| then None
      else
        AlignmentRange(info / BIT_60);
        var alignment := Pow2(info / BIT_60 + 12);
        var base := info * 0x1000 % TWO_64;
        var entries := ReadEntries(file[HEADER_SIZE..tablesAt], n);
        var tables := ReadInfos(file[tablesAt..bodyAt], t);
        var size := VerifyEntries(entries, alignment, 0);
        var loadAt := AlignUp(bodyAt + StoredSize(entries), 8);
        if !Aligned(base, alignment) || size.None? || loadAt > |file| || Load(file, 4, 4) > size.value then None
        else if VerifyTables(tables, -1, loadAt) != Some(|file|) then None
        else
          Some(Context(
            Header(base, Load(file, 4, 4), PE_MACHINES[file[2] / 8], file[2] % 8 + 10, info / BIT_57 % 2 == 1),
            alignment, info / BIT_58 % 2 == 1, info / BIT_59 % 2 == 1, entries, tables, bodyAt, loadAt, size.value))
  }

  lemma AlignmentRange(x: nat)
    requires x < 16
    ensures var a := Pow2(x + 12); a < TWO_32 && a % 0x1000 == 0
  {
    Pow2Mono(12, x + 12);
    Pow2Mono(x + 12, 27);
    Pow2Values();
    Pow2Divides(0x1000, Pow2(x + 12));
  }
}
