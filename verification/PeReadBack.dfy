/** What reading an XIP file back gives: relocations, fixed address, symbols path and, with PeSegments, all of it. */
module PeReadBack {
  import opened Bytes
  import opened Image
  import opened StripPrefix
  import opened UeFile
  import opened UeLoad
  import opened PeRelocs
  import opened PeTables
  import opened PeLayout
  import opened PeSegments

  // ---------------------------------------------------------------- tables in the file

  lemma TableAt(c: seq<byte>, h: Headers, img: Image, is64: bool, k: nat)
    requires XipFile(c, h, img, is64) && k < |Extras(img)|
    ensures Holding(c, ImageSize(img.segments) + Span(Extras(img)[..k], img.alignment), Extras(img)[k].bytes)
  {
    hide Holding, Span, InPlace, Extras, Placed;
    assert ExtraAt(c, h, |img.segments|, ImageSize(img.segments), img.alignment, Extras(img), k);
  }

  /** Every table lies in the file at the address its directory names. */
  lemma TablesHeld(c: seq<byte>, h: Headers, img: Image, is64: bool)
    requires XipFile(c, h, img, is64)
    ensures img.hiiData != [] ==> Holding(c, h.resourceDir.address, HiiTable(img.hiiData))
    ensures img.relocs != [] ==> Holding(c, h.relocDir.address, PeTable(img.relocs, RelocsAt(img)))
    ensures img.symbolsPath.Some? ==> Holding(c, h.debugDir.address, CodeViewTable(img.symbolsPath.value, DebugAt(img)))
  {
    hide Holding, Span, Staged, HiiTable, PeTable, CodeViewTable, Recorded;
    var es, a := Extras(img), img.alignment;
    var x, y := |HiiExtra(img)|, |RelocExtra(img)|;
    assert es[..0] == [] && es[..x] == HiiExtra(img) && es[..x + y] == HiiExtra(img) + RelocExtra(img);
    NoSpan(a);
    DebugAtIs(img);
    if img.hiiData != [] {
      TableAt(c, h, img, is64, 0);
    }
    if img.relocs != [] {
      TableAt(c, h, img, is64, x);
    }
    if img.symbolsPath.Some? {
      TableAt(c, h, img, is64, x + y);
    }
  }

  lemma NoSpan(alignment: nat)
    requires alignment > 0
    ensures Span([], alignment) == 0
  {
  }

  /** Sections of at least four bytes' alignment keep every table aligned. */
  lemma TablesAligned(img: Image)
    requires CheckedSegments(img.segments, img.alignment) && img.alignment % 4 == 0
    ensures RelocsAt(img) % 4 == 0 && DebugAt(img) % 4 == 0
  {
    hide CheckedSegment, IsPow2, HiiExtra, RelocExtra, Span;
    var a := img.alignment;
    SizeAligned(img.segments, a, |img.segments| - 1);
    AlignedFour(ImageSize(img.segments), a);
    SpanAligned(HiiExtra(img), a);
    SpanAligned(RelocExtra(img), a);
    ModSum(ImageSize(img.segments), Span(HiiExtra(img), a), 4);
    ModSum(RelocsAt(img), Span(RelocExtra(img), a), 4);
  }

  lemma {:induction false} SpanAligned(es: seq<Extra>, alignment: nat)
    requires alignment > 0 && alignment % 4 == 0
    ensures Span(es, alignment) % 4 == 0
  {
    hide AlignUp;
    if es != [] {
      var size := AlignUp(|es[|es| - 1].bytes|, alignment);
      SpanAligned(es[..|es| - 1], alignment);
      AlignedFour(size, alignment);
      ModSum(Span(es[..|es| - 1], alignment), size, 4);
    }
  }

  lemma SizeAligned(segs: seq<Segment>, alignment: nat, i: nat)
    requires CheckedSegments(segs, alignment) && i < |segs|
    ensures Aligned(segs[i].End(), alignment)
  {
    assert CheckedSegment(segs, alignment, i);
    if i > 0 {
      SizeAligned(segs, alignment, i - 1);
    }
    ModSum(segs[i].address, |segs[i].data|, alignment);
  }

  lemma AlignedFour(x: nat, alignment: nat)
    requires Aligned(x, alignment) && alignment % 4 == 0
    ensures x % 4 == 0
  {
    var q, k := x / alignment, alignment / 4;
    assert x == 4 * (k * q);
  }

  // ---------------------------------------------------------------- the section headers

  /** An eight-byte name field. */
  ghost function Ascii(s: string): (f: seq<byte>)
    requires |s| <= 8 && forall i :: 0 <= i < |s| ==> s[i] < 128 as char
    ensures |f| == 8
  {
    seq(8, i requires 0 <= i < 8 => if i < |s| then s[i] as int else 0)
  }

  lemma ToolNames()
    ensures RESRC_NAME == Ascii(".rsrc") && RELOC_NAME == Ascii(".reloc") && DEBUG_NAME == Ascii(".debug")
  {
  }

  /** The header of a section whose raw data lies at its address. */
  ghost predicate Describes(t: Section, address: nat, size: nat, read: bool, write: bool, execute: bool, discardable: bool) {
    t == Section(t.name, address, size, size, address, read, write, execute, discardable, t.fixedBase)
  }

  /** The section headers of an XIP file: first the segments, as they are. */
  lemma XipHeaders(c: seq<byte>, h: Headers, img: Image, is64: bool)
    requires XipFile(c, h, img, is64)
    ensures |h.sections| == |img.segments| + (if img.hiiData == [] then 0 else 1) + (if img.relocs == [] then 0 else 1)
                            + (if img.symbolsPath.None? then 0 else 1)
    ensures forall i :: 0 <= i < |img.segments| ==>
              var s := img.segments[i];
              && HoldsName(h.sections[i].name, s.name)
              && Describes(h.sections[i], s.address, |s.data|, s.read, s.write, s.execute, false)
  {
    hide Describes, HoldsName, XipFile;
    XipCount(c, h, img, is64);
    forall i | 0 <= i < |img.segments|
      ensures HoldsName(h.sections[i].name, img.segments[i].name)
      ensures var s := img.segments[i];
              Describes(h.sections[i], s.address, |s.data|, s.read, s.write, s.execute, false)
    {
      SegmentDescribed(c, h, img, is64, i);
    }
  }

  /** Then .rsrc, .reloc and .debug, each only if needed, where the image ends; the last two can be discarded. */
  ghost predicate TablesDescribed(h: Headers, img: Image)
    requires img.segments != [] && img.alignment > 0
  {
    var n, a := |img.segments|, img.alignment;
    var hii, rel := if img.hiiData == [] then 0 else 1, if img.relocs == [] then 0 else 1;
    var relocsAt := ImageSize(img.segments) + if hii == 0 then 0 else AlignUp(112 + |img.hiiData|, a);
    var table := if rel == 0 then [] else PeTable(img.relocs, relocsAt);
    var debugAt := relocsAt + if rel == 0 then 0 else AlignUp(|table|, a);
    && h.resourceDir == (if hii == 0 then DataDirectory(0, 0) else DataDirectory(ImageSize(img.segments), 112 + |img.hiiData|))
    && h.relocDir == (if rel == 0 then DataDirectory(0, 0) else DataDirectory(relocsAt, |table|))
    && h.debugDir == (if img.symbolsPath.None? then DataDirectory(0, 0) else DataDirectory(debugAt, 28))
    && (img.hiiData != [] ==>
          && n < |h.sections| && h.sections[n].name == Ascii(".rsrc")
          && Describes(h.sections[n], ImageSize(img.segments), AlignUp(112 + |img.hiiData|, a), true, false, false, false))
    && (img.relocs != [] ==>
          && n + hii < |h.sections| && h.sections[n + hii].name == Ascii(".reloc")
          && Describes(h.sections[n + hii], relocsAt, AlignUp(|table|, a), true, false, false, true))
    && (img.symbolsPath.Some? ==>
          && n + hii + rel < |h.sections| && h.sections[n + hii + rel].name == Ascii(".debug")
          && Describes(h.sections[n + hii + rel], debugAt, AlignUp(45 + |img.symbolsPath.value|, a),
                       true, false, false, true))
  }

  lemma XipTableHeaders(c: seq<byte>, h: Headers, img: Image, is64: bool)
    requires XipFile(c, h, img, is64)
    ensures img.segments != [] && img.alignment > 0 && TablesDescribed(h, img)
  {
    hide Describes, XipFile, PeTable, AlignUp, Ascii, Span, RelocsAt, DebugAt, HiiHeader, DebugHeader;
    XipCount(c, h, img, is64);
    ToolNames();
    ExtraPlaces(img);
    TablePlaces(img);
    XipDirected(c, h, img, is64);
    if img.hiiData != [] {
      ExtraDescribed(c, h, img, is64, 0);
    }
    if img.relocs != [] {
      ExtraDescribed(c, h, img, is64, |HiiExtra(img)|);
    }
    if img.symbolsPath.Some? {
      ExtraDescribed(c, h, img, is64, |HiiExtra(img)| + |RelocExtra(img)|);
    }
  }

  lemma TablePlaces(img: Image)
    requires img.segments != [] && img.alignment > 0
    ensures RelocsAt(img) == ImageSize(img.segments) + if img.hiiData == [] then 0 else AlignUp(112 + |img.hiiData|, img.alignment)
    ensures DebugAt(img)
            == RelocsAt(img) + if img.relocs == [] then 0 else AlignUp(|PeTable(img.relocs, RelocsAt(img))|, img.alignment)
  {
    hide AlignUp, PeTable, HiiHeader, Span;
    NoSpan(img.alignment);
    if img.hiiData != [] {
      SpanOne(HiiExtra(img)[0], img.alignment);
    }
    if img.relocs != [] {
      SpanOne(RelocExtra(img)[0], img.alignment);
    }
  }

  lemma XipDirected(c: seq<byte>, h: Headers, img: Image, is64: bool)
    requires XipFile(c, h, img, is64)
    ensures h.resourceDir == if img.hiiData == [] then DataDirectory(0, 0)
                             else DataDirectory(ImageSize(img.segments), 112 + |img.hiiData|)
    ensures h.relocDir == if img.relocs == [] then DataDirectory(0, 0)
                          else DataDirectory(RelocsAt(img), |PeTable(img.relocs, RelocsAt(img))|)
    ensures h.debugDir == if img.symbolsPath.None? then DataDirectory(0, 0) else DataDirectory(DebugAt(img), 28)
  {
    hide Staged, Recorded, PeTable, HiiHeader;
  }

  lemma XipCount(c: seq<byte>, h: Headers, img: Image, is64: bool)
    requires XipFile(c, h, img, is64)
    ensures img.segments != [] && img.alignment > 0 && |h.sections| == |img.segments| + |Extras(img)|
  {
  }

  lemma SegmentDescribed(c: seq<byte>, h: Headers, img: Image, is64: bool, i: nat)
    requires XipFile(c, h, img, is64) && i < |img.segments| <= |h.sections|
    ensures HoldsName(h.sections[i].name, img.segments[i].name)
    ensures var s := img.segments[i];
            Describes(h.sections[i], s.address, |s.data|, s.read, s.write, s.execute, false)
  {
    hide InPlace, Extras, Recorded, Directed, Holding;
    assert PlacedAt(c, h, img.segments[i], i);
  }

  lemma ExtraDescribed(c: seq<byte>, h: Headers, img: Image, is64: bool, k: nat)
    requires XipFile(c, h, img, is64) && k < |Extras(img)| && |h.sections| == |img.segments| + |Extras(img)|
    ensures var e, t := Extras(img)[k], h.sections[|img.segments| + k];
            && t.name == e.name
            && Describes(t, ImageSize(img.segments) + Span(Extras(img)[..k], img.alignment), AlignUp(|e.bytes|, img.alignment),
                         true, false, false, e.discardable)
  {
    hide InPlace, Placed, Extras, Recorded, Directed, Holding, Span;
    assert ExtraAt(c, h, |img.segments|, ImageSize(img.segments), img.alignment, Extras(img), k);
  }

  lemma ExtraPlaces(img: Image)
    requires img.segments != [] && img.alignment > 0
    ensures var es, x, y := Extras(img), |HiiExtra(img)|, |RelocExtra(img)|;
            && Span(es[..0], img.alignment) == 0
            && ImageSize(img.segments) + Span(es[..x], img.alignment) == RelocsAt(img)
            && ImageSize(img.segments) + Span(es[..x + y], img.alignment) == DebugAt(img)
  {
    hide HiiTable, PeTable, CodeViewTable, Span;
    var es, x, y := Extras(img), |HiiExtra(img)|, |RelocExtra(img)|;
    assert es[..0] == [] && es[..x] == HiiExtra(img) && es[..x + y] == HiiExtra(img) + RelocExtra(img);
    NoSpan(img.alignment);
    DebugAtIs(img);
  }

  // ---------------------------------------------------------------- the segments of any section table

  /** Sections that become segments. */
  ghost predicate BecomesSegment(t: Section) {
    !t.discardable && t.name != Ascii(".reloc") && t.name != Ascii(".rsrc") && t.name != Ascii(".debug")
  }

  /** How many of the first i sections do. */
  ghost function Rank(secs: seq<Section>, i: nat): (k: nat)
    requires i <= |secs|
  {
    if i == 0 then 0 else Rank(secs, i - 1) + if BecomesSegment(secs[i - 1]) then 1 else 0
  }

  /** A segment with the section's bytes in the loaded image, its permissions and its name up to a zero. */
  ghost predicate MadeFrom(s: Segment, m: seq<byte>, t: Section, alignment: nat)
    requires InImage(m, t, alignment)
  {
    && s.address == t.virtualAddress
    && s.data == m[t.virtualAddress..t.virtualAddress + AlignUp(t.virtualSize, alignment)]
    && s.read == t.read && s.write == t.write && s.execute == t.execute
    && s.name.Some? && s.name.value <= t.name && 0 !in s.name.value
    && (|s.name.value| < |t.name| ==> t.name[|s.name.value|] == 0)
  }

  lemma SectionKept(t: Section)
    ensures Kept(t) <==> BecomesSegment(t)
  {
    ToolNames();
  }

  lemma SectionMade(m: seq<byte>, t: Section, alignment: nat)
    requires InImage(m, t, alignment)
    ensures MadeFrom(ScanSection(m, t, alignment), m, t, alignment)
  {
    hide CString;
    CStringZero(t.name);
  }

  /** The segments are made from the sections that become one, in their order. */
  lemma {:induction false} SegmentsMade(m: seq<byte>, secs: seq<Section>, alignment: nat, n: nat, i: nat)
    requires Loaded(m, secs, alignment) && i <= n <= |secs|
    ensures |ScanSegments(m, secs, alignment, n)| == Rank(secs, n)
    ensures i < n && BecomesSegment(secs[i]) ==>
              && Rank(secs, i) < Rank(secs, n) && InImage(m, secs[i], alignment)
              && MadeFrom(ScanSegments(m, secs, alignment, n)[Rank(secs, i)], m, secs[i], alignment)
    decreases n
  {
    hide MadeFrom, ScanSection, BecomesSegment, Kept, InImage;
    if n > 0 {
      SegmentsMade(m, secs, alignment, n - 1, if i < n then i else n - 1);
      SectionKept(secs[n - 1]);
      if Kept(secs[n - 1]) {
        SectionMade(m, secs[n - 1], alignment);
      }
    }
  }

  // ---------------------------------------------------------------- relocations

  lemma PlainChecked(segs: seq<Segment>, relocs: seq<Reloc>)
    requires AllHold(segs, relocs)
    ensures Plain(relocs)
  {
    forall i | 0 <= i < |relocs| ensures relocs[i].ty == REL_HIGHLOW || relocs[i].ty == REL_DIR64 {
      assert CheckedReloc(segs, relocs[i]);
    }
  }

  /** The directory can be decoded: it is aligned, and its decoded form fits 32 bits. */
  predicate Decodable(img: Image)
    requires img.alignment > 0 && img.segments != []
  {
    img.relocs == [] || (RelocsAt(img) % 4 == 0 && 4 * |PeTable(img.relocs, RelocsAt(img))| < TWO_32)
  }

  /** The loader lets the directory through, and decoding it from the file itself gives the image's relocations. */
  ghost predicate RelocsComeBack(c: seq<byte>, h: Headers, img: Image) {
    && Directory(c, h.relocDir.address, h.relocDir.size)
    && ScanPe(c, h.relocDir.address, h.relocDir.size) == Some(img.relocs)
  }

  lemma XipRelocations(c: seq<byte>, h: Headers, img: Image, is64: bool)
    requires Checked(img) && XipFile(c, h, img, is64) && |c| < TWO_32
    ensures RelocsComeBack(c, h, img) <==> Decodable(img)
  {
    hide PeTable, ScanBlocks, Holding, CheckedSegment, Ordered, IsPow2, Staged, Recorded, AllHold;
    if img.relocs != [] {
      TablesHeld(c, h, img, is64);
      PlainChecked(img.segments, img.relocs);
      if RelocsAt(img) % 4 == 0 {
        TableAligned(img.relocs, RelocsAt(img));
        PeRoundTrip(c, RelocsAt(img), img.relocs);
      } else {
        TableNotEmpty(img.relocs, RelocsAt(img));
      }
    }
  }

  lemma TableNotEmpty(relocs: seq<Reloc>, start: nat)
    requires relocs != []
    ensures PeTable(relocs, start) != []
  {
  }

  // ---------------------------------------------------------------- the fixed address

  /**
   * UefiImageGetFixedAddressPe and its use by the tool: the address recorded in the first section without code; None is
   * a failure. The emitter marks exactly the executable sections as code.
   */
  function ScanFixed(h: Headers, alignment: nat): (r: Option<bool>)
    requires alignment > 0
  {
    var s, i := h.sections, FirstData(h.sections);
    if i == |s| || s[i].fixedBase == 0 then Some(false)
    else if s[i].fixedBase % alignment != 0 || s[i].fixedBase != h.imageBase then None
    else Some(true)
  }

  /** Section i holds no code, and all before it do. */
  ghost predicate FirstWithoutCode(s: seq<Section>, i: nat) {
    i < |s| && !s[i].execute && forall j :: 0 <= j < i ==> s[j].execute
  }

  /** An image scans as fixed if its first section without code records its aligned base, and as not fixed without a record. */
  lemma FixedScans(h: Headers, alignment: nat)
    requires alignment > 0
    ensures ScanFixed(h, alignment) == Some(true) <==>
              && h.imageBase % alignment == 0
              && exists i: nat :: FirstWithoutCode(h.sections, i) && h.sections[i].fixedBase == h.imageBase != 0
    ensures ScanFixed(h, alignment) == Some(false) <==>
              forall i: nat :: FirstWithoutCode(h.sections, i) ==> h.sections[i].fixedBase == 0
  {
    var k := FirstData(h.sections);
    assert k < |h.sections| ==> FirstWithoutCode(h.sections, k);
    forall i: nat | FirstWithoutCode(h.sections, i) ensures i == k {
    }
  }

  lemma BaseAligned(img: Image, is64: bool)
    requires Checked(img)
    ensures ImageBase(img, is64) % img.alignment == 0
  {
    hide CheckedSegment, CheckedRelocs, IsPow2;
    if !is64 {
      Pow2Divides32(img.alignment);
      ModMod(img.header.baseAddress, TWO_32, img.alignment);
    }
  }

  lemma Pow2Divides32(a: nat)
    requires IsPow2(a) && a <= TWO_32
    ensures TWO_32 % a == 0
  {
    Pow256Values();
    Pow256IsPow2(4);
    Pow2Divides(a, TWO_32);
  }

  /** The flag comes back, unless the fixed address, in the width of the file, is 0 and cannot be told from none. */
  lemma XipFixed(c: seq<byte>, h: Headers, img: Image, is64: bool)
    requires Checked(img) && XipFile(c, h, img, is64)
    ensures h.imageBase == (if is64 then img.header.baseAddress else img.header.baseAddress % TWO_32)
    ensures ScanFixed(h, img.alignment) == Some(img.header.fixedAddress && h.imageBase != 0)
  {
    hide Staged, Directed, CheckedSegments, CheckedRelocs;
    BaseAligned(img, is64);
  }

  // ---------------------------------------------------------------- the symbols path

  /** The debug header: type 2, the record's size, address and offset, and the record's signature; the rest is zero. */
  lemma HeaderFields(address: nat, pathSize: nat)
    requires address + 28 < TWO_32 && 16 + pathSize < TWO_32
    ensures var t := DebugHeader(address, address, pathSize);
            && Load(t, 12, 4) == 2 && Load(t, 16, 4) == 16 + pathSize
            && Load(t, 20, 4) == Load(t, 24, 4) == address + 28 && t[28..32] == [0x4E, 0x42, 0x31, 0x30]
            && t[..12] == t[32..] == seq(12, _ => 0)
  {
    hide ToLe, FromLe;
    var t := DebugHeader(address, address, pathSize);
    Pow256Values();
    FromToLe(TYPE_CODEVIEW, 4);
    FromToLe(NB10_SIZE + pathSize, 4);
    FromToLe(address + DEBUG_ENTRY_SIZE, 4);
    assert t[12..16] == ToLe(TYPE_CODEVIEW, 4);
    assert t[16..20] == ToLe(NB10_SIZE + pathSize, 4);
    assert t[20..24] == t[24..28] == ToLe(address + DEBUG_ENTRY_SIZE, 4);
  }

  lemma HeldSlice(m: seq<byte>, at: nat, t: seq<byte>, i: nat, j: nat)
    requires Holding(m, at, t) && i <= j <= |t|
    ensures m[at + i..at + j] == t[i..j]
  {
    forall k | i <= k < j ensures m[at + k] == t[k] {
      assert m[at..at + |t|][k] == m[at + k];
    }
  }

  lemma PathFields(m: seq<byte>, at: nat, path: seq<byte>)
    requires Holding(m, at, CodeViewTable(path, at)) && |m| < TWO_32
    ensures Load(m, at + 12, 4) == TYPE_CODEVIEW && Load(m, at + 16, 4) == NB10_SIZE + |path| + 1
    ensures Load(m, at + 24, 4) == at + DEBUG_ENTRY_SIZE
    ensures m[at + 28..at + 32] == NB10 && m[at + 44..at + 44 + |path|] == path && m[at + 44 + |path|] == 0
  {
    hide DebugHeader, FromLe;
    var t, header := CodeViewTable(path, at), DebugHeader(at, at, |path| + 1);
    HeaderFields(at, |path| + 1);
    assert t == header + (path + [0]);
    assert t[12..16] == header[12..16] && t[16..20] == header[16..20] && t[24..28] == header[24..28] && t[28..32] == header[28..32];
    HeldSlice(m, at, t, 12, 16);
    HeldSlice(m, at, t, 16, 20);
    HeldSlice(m, at, t, 24, 28);
    HeldSlice(m, at, t, 28, 32);
    HeldSlice(m, at, t, 44, 44 + |path|);
    HeldSlice(m, at, t, 44 + |path|, 45 + |path|);
    assert t[44..44 + |path|] == path && t[44 + |path|..45 + |path|] == [0];
    assert m[at + 44 + |path|] == m[at + 44 + |path|..at + 45 + |path|][0];
  }

  /** What reading an emitted path gives. */
  lemma PathRoundTrip(m: seq<byte>, at: nat, path: seq<byte>)
    requires Holding(m, at, CodeViewTable(path, at)) && |m| < TWO_32
    ensures ReadPath(m, at, DEBUG_ENTRY_SIZE) == if at % 4 == 0 then Found(path) else Corrupted
  {
    hide CodeViewTable, FromLe;
    PathFields(m, at, path);
  }

  predicate PathAligned(img: Image)
    requires img.alignment > 0 && img.segments != []
  {
    img.symbolsPath.None? || DebugAt(img) % 4 == 0
  }

  function Expected(path: Option<seq<byte>>): Lookup {
    if path.Some? then Found(path.value) else NotFound
  }

  lemma XipPath(c: seq<byte>, h: Headers, img: Image, is64: bool)
    requires XipFile(c, h, img, is64) && |c| < TWO_32
    ensures ReadPath(c, h.debugDir.address, h.debugDir.size) == Expected(img.symbolsPath) <==> PathAligned(img)
  {
    hide Staged, Recorded, CodeViewTable, DebugAt, Holding;
    if img.symbolsPath.Some? {
      TablesHeld(c, h, img, is64);
      PathRoundTrip(c, DebugAt(img), img.symbolsPath.value);
    }
  }

  // ---------------------------------------------------------------- everything

  /** Segments, relocations, fixed address and symbols path come back from the file as output validation compares them. */
  ghost predicate ComesBack(c: seq<byte>, h: Headers, img: Image)
    requires img.alignment > 0 && Loaded(c, h.sections, img.alignment)
  {
    && AllAgree(ScanSegments(c, h.sections, img.alignment, |h.sections|), img.segments)
    && RelocsComeBack(c, h, img)
    && ScanFixed(h, img.alignment) == Some(img.header.fixedAddress)
    && ReadPath(c, h.debugDir.address, h.debugDir.size) == Expected(img.symbolsPath)
  }

  /**
   * Reading an XIP file back: it gives what was emitted if and only if every segment has a name of its own, the tables
   * are aligned, the relocations decode within 32 bits and a fixed address is not 0.
   */
  lemma XipComesBack(c: seq<byte>, h: Headers, img: Image, is64: bool)
    requires Checked(img) && XipFile(c, h, img, is64) && |c| < TWO_32
    ensures Loaded(c, h.sections, img.alignment)
    ensures ComesBack(c, h, img) <==>
              && ProperlyNamed(img.segments) && Decodable(img) && PathAligned(img)
              && !(img.header.fixedAddress && (if is64 then img.header.baseAddress else img.header.baseAddress % TWO_32) == 0)
  {
    hide XipFile, AllAgree, ScanSegments, RelocsComeBack, ScanFixed, ReadPath, ProperlyNamed, Decodable, PathAligned;
    hide Loaded, CheckedSegments, CheckedRelocs;
    XipSegments(c, h, img, is64);
    XipRelocations(c, h, img, is64);
    XipFixed(c, h, img, is64);
    XipPath(c, h, img, is64);
  }

  // ---------------------------------------------------------------- resources

  /** The resource table records its data at address 112, whatever the address of its section, which is never 0. */
  lemma ResourcesMisplaced(c: seq<byte>, h: Headers, img: Image, is64: bool)
    requires CheckedSegments(img.segments, img.alignment) && XipFile(c, h, img, is64) && FitsInPlace(img, is64)
    requires img.hiiData != []
    ensures var at := h.resourceDir.address;
            && Holding(c, at + HII_HEADER_SIZE, img.hiiData)
            && Load(c, at + 96, 4) == HII_HEADER_SIZE != at + HII_HEADER_SIZE
  {
    hide CheckedSegment, IsPow2, Staged, Recorded, HiiDirectories, ToLe, FromLe, AlignAddend;
    var at, t := h.resourceDir.address, HiiTable(img.hiiData);
    TablesHeld(c, h, img, is64);
    SizeBelow(img.segments, img.alignment);
    Pow256Values();
    FromToLe(HII_HEADER_SIZE, 4);
    assert t[96..100] == ToLe(HII_HEADER_SIZE, 4) && t[112..112 + |img.hiiData|] == img.hiiData;
    HeldSlice(c, at, t, 96, 100);
    HeldSlice(c, at, t, 112, 112 + |img.hiiData|);
  }
}
