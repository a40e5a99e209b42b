/** The layout of XIP PE files, which are executed where they are stored: file offsets are virtual addresses (PeEmit.c). */
module PeLayout {
  import opened Bytes
  import opened DynamicBuffer
  import opened Image
  import opened Truncation
  import opened UeBody
  import opened UeFile
  import opened PeRelocs
  import opened PeTables

  const DOS_HEADER_SIZE := 64
  const SECTION_HEADER_SIZE := 40

  /** The NT headers with all sixteen data directories. */
  function NtHeadersSize(is64: bool): nat { if is64 then 264 else 248 }

  function SizeOfHeaders(is64: bool, numSections: nat): nat {
    DOS_HEADER_SIZE + NtHeadersSize(is64) + SECTION_HEADER_SIZE * numSections
  }

  lemma HeaderSizes(n: nat)
    ensures SizeOfHeaders(true, n) == 328 + 40 * n && SizeOfHeaders(false, n) == 312 + 40 * n
  {
  }

  /** A section header; the name is an eight-byte field, fixedBase the eight bytes from PointerToRelocations on. */
  datatype Section = Section(
    name: seq<byte>,
    virtualAddress: nat,
    virtualSize: nat,
    rawSize: nat,
    pointer: nat,
    read: bool,
    write: bool,
    execute: bool,
    discardable: bool,
    fixedBase: nat
  ) {
    function End(): nat { virtualAddress + virtualSize }
  }

  /** The names of the sections the tool appends: .reloc, .rsrc and .debug. */
  const RELOC_NAME: seq<byte> := [0x2E, 0x72, 0x65, 0x6C, 0x6F, 0x63, 0, 0]
  const RESRC_NAME: seq<byte> := [0x2E, 0x72, 0x73, 0x72, 0x63, 0, 0, 0]
  const DEBUG_NAME: seq<byte> := [0x2E, 0x64, 0x65, 0x62, 0x75, 0x67, 0, 0]

  /** The name field of a segment; a segment without a name leaves it zero. */
  function NameBytes(name: Option<seq<byte>>): (f: seq<byte>)
    ensures |f| == 8
  {
    if name.Some? then NameField(name.value) else Zeros(8)
  }

  /** The section header of a segment in XIP mode. */
  function SegmentSection(s: Segment, pointer: nat): Section {
    Section(NameBytes(s.name), s.address, |s.data|, |s.data|, pointer, s.read, s.write, s.execute, false, 0)
  }

  /** The section header of an appended section in XIP mode. */
  function ExtraSection(name: seq<byte>, address: nat, size: nat, pointer: nat, discardable: bool): Section {
    Section(name, address, size, size, pointer, true, false, false, discardable, 0)
  }

  datatype DataDirectory = DataDirectory(address: nat, size: nat)

  const NO_DIRECTORY := DataDirectory(0, 0)

  /** The header fields that describe the layout. */
  datatype Headers = Headers(
    imageBase: nat,
    sizeOfImage: nat,
    sections: seq<Section>,
    resourceDir: DataDirectory,
    relocDir: DataDirectory,
    debugDir: DataDirectory
  ) {
    /** The headers with one more section at the end of the image. */
    function With(t: Section): Headers { this.(sizeOfImage := sizeOfImage + t.virtualSize, sections := sections + [t]) }
  }

  function NoSections(base: nat, size: nat): Headers { Headers(base, size, [], NO_DIRECTORY, NO_DIRECTORY, NO_DIRECTORY) }

  /** The file so far is its own image: sections lie at their addresses, one after the other, and fill it. */
  ghost predicate InPlace(h: Headers, size: nat, first: nat) {
    && h.sizeOfImage == size
    && (if h.sections == [] then size == first
        else h.sections[0].virtualAddress == first && h.sections[|h.sections| - 1].End() == size)
    && (forall i :: 0 <= i < |h.sections| ==> SectionInPlace(h.sections, i))
  }

  ghost predicate SectionInPlace(s: seq<Section>, i: nat)
    requires i < |s|
  {
    && s[i].pointer == s[i].virtualAddress && s[i].rawSize == s[i].virtualSize
    && (i > 0 ==> s[i].virtualAddress == s[i - 1].End())
  }

  lemma InPlaceSnoc(h: Headers, size: nat, first: nat, t: Section)
    requires InPlace(h, size, first) && t.virtualAddress == t.pointer == size && t.rawSize == t.virtualSize
    ensures InPlace(h.With(t), size + t.virtualSize, first)
  {
    var s := h.sections + [t];
    forall i | 0 <= i < |s| ensures SectionInPlace(s, i) {
      if i < |h.sections| {
        assert SectionInPlace(h.sections, i);
      }
    }
  }

  /** Space for the headers; a later first segment only makes the gap larger. */
  method ReserveHeaders(b: Buffer, dosHeader: seq<byte>, is64: bool, numSections: nat, fileAlignment: uint32, first: uint32,
                        base: nat)
    returns (ok: bool, h: Headers)
    requires b.Valid() && b.Contents() == [] && |dosHeader| == DOS_HEADER_SIZE && fileAlignment > 0
    requires AlignUp(SizeOfHeaders(is64, numSections), fileAlignment) < TWO_32
    modifies b, b.memory
    ensures b.Valid() && (b.memory == old(b.memory) || fresh(b.memory))
    ensures var size := AlignUp(SizeOfHeaders(is64, numSections), fileAlignment);
            var aligned := if size < first then first else size;
            && (ok ==> h == NoSections(base, aligned) && b.Contents() == dosHeader + Zeros(aligned - DOS_HEADER_SIZE))
            && (!ok ==> Oversized(aligned))
  {
    hide AlignAddend;
    var aligned := AlignUp(SizeOfHeaders(is64, numSections), fileAlignment);
    if aligned < first {
      aligned := first;
    }
    h := NoSections(base, aligned);
    var at := b.Append(dosHeader);
    ok := at != MAX_UINT32;
    if !ok {
      return;
    }
    at := b.AppendReserve(aligned - DOS_HEADER_SIZE);
    ok := at != MAX_UINT32;
  }

  /** ToolImageEmitPeSection in XIP mode: the raw data is as large as the segment. */
  method EmitSection(b: Buffer, h: Headers, s: Segment, fileAlignment: nat) returns (ok: bool, h': Headers)
    requires b.Valid() && Aligned(|s.data|, fileAlignment) && |s.data| < TWO_32 && s.unpaddedSize <= |s.data|
    requires forall j :: s.unpaddedSize <= j < |s.data| ==> s.data[j] == 0
    requires h.sizeOfImage == s.address
    modifies b, b.memory
    ensures b.Valid() && (b.memory == old(b.memory) || fresh(b.memory))
    ensures ok ==>
              && b.Contents() == old(b.Contents()) + s.data
              && h' == h.With(SegmentSection(s, old(b.dataSize)))
    ensures !ok ==> Oversized(old(b.dataSize) + |s.data|)
  {
    PaddedSegment(s);
    ExactlyAligned(|s.data|, fileAlignment);
    h' := h;
    var offset := b.Append(s.data[..s.unpaddedSize]);
    ok := offset != MAX_UINT32;
    if !ok {
      return;
    }
    var rawSize := AlignUp(|s.data|, fileAlignment);
    var section := Section(NameBytes(s.name), s.address, |s.data|, rawSize, offset, s.read, s.write, s.execute, false, 0);
    h' := h.With(section);
    var at := b.AppendReserve(rawSize - s.unpaddedSize);
    ok := at != MAX_UINT32;
    if ok {
      assert b.Contents() == old(b.Contents()) + (s.data[..s.unpaddedSize] + Zeros(|s.data| - s.unpaddedSize));
    }
  }

  lemma ExactlyAligned(x: nat, a: nat)
    requires Aligned(x, a)
    ensures AlignUp(x, a) == x
  {
  }

  /** InternalFinalizeExtraSection in XIP mode, for `size` bytes that have been appended from `offset` on. */
  method FinalizeExtra(b: Buffer, h: Headers, name: seq<byte>, size: nat, offset: nat, alignment: uint32, discardable: bool)
    returns (ok: bool, h': Headers)
    requires b.Valid() && alignment > 0 && offset + size == b.dataSize
    modifies b, b.memory
    ensures b.Valid() && (b.memory == old(b.memory) || fresh(b.memory))
    ensures ok ==>
              && b.Contents() == old(b.Contents()) + Zeros(AlignAddend(size, alignment))
              && h' == h.With(ExtraSection(name, h.sizeOfImage, AlignUp(size, alignment), offset, discardable))
    ensures !ok ==> Oversized(offset + AlignUp(size, alignment))
  {
    var aligned := AlignUp(size, alignment);
    h' := h.With(ExtraSection(name, h.sizeOfImage, aligned, offset, discardable));
    var at := b.AppendReserve(aligned - size);
    ok := at != MAX_UINT32;
  }

  // ---------------------------------------------------------------- all sections

  lemma HoldingAppend(c: seq<byte>, at: nat, part: seq<byte>, more: seq<byte>)
    requires Holding(c, at, part)
    ensures Holding(c + more, at, part)
  {
    assert (c + more)[at..at + |part|] == c[at..at + |part|];
  }

  lemma HoldingEnd(c: seq<byte>, part: seq<byte>, more: seq<byte>)
    ensures Holding(c + part + more, |c|, part)
  {
  }

  /** The first n segments lie in the file at their addresses, under section headers that say so. */
  ghost predicate Placed(c: seq<byte>, h: Headers, segs: seq<Segment>, n: nat)
    requires n <= |segs|
  {
    n <= |h.sections| && forall i :: 0 <= i < n ==> PlacedAt(c, h, segs[i], i)
  }

  ghost predicate PlacedAt(c: seq<byte>, h: Headers, s: Segment, i: nat)
    requires i < |h.sections|
  {
    h.sections[i].(fixedBase := 0) == SegmentSection(s, s.address) && Holding(c, s.address, s.data)
  }

  lemma PlacedGrows(c: seq<byte>, h: Headers, segs: seq<Segment>, n: nat, more: seq<byte>, h': Headers)
    requires n <= |segs| && Placed(c, h, segs, n) && h.sections <= h'.sections
    ensures Placed(c + more, h', segs, n)
  {
    hide Holding;
    forall i | 0 <= i < n ensures PlacedAt(c + more, h', segs[i], i) {
      assert PlacedAt(c, h, segs[i], i);
      HoldingAppend(c, segs[i].address, segs[i].data, more);
    }
  }

  /** Segments whose unpadded size leaves out zeros only, as ImageInitUnpaddedSize makes them. */
  ghost predicate Emittable(segs: seq<Segment>, alignment: nat) {
    CheckedSegments(segs, alignment) && forall i :: 0 <= i < |segs| ==> segs[i].unpaddedSize == TrimmedSize(segs[i].data)
  }

  lemma EmittableAt(segs: seq<Segment>, alignment: nat, i: nat)
    requires Emittable(segs, alignment) && i < |segs|
    ensures var s := segs[i];
            && Aligned(|s.data|, alignment) && s.unpaddedSize <= |s.data| && s.End() < TWO_32
            && (forall j :: s.unpaddedSize <= j < |s.data| ==> s.data[j] == 0)
            && (i > 0 ==> s.address == segs[i - 1].End())
            && s.End() <= ImageSize(segs)
  {
    hide TrimmedSize;
    assert CheckedSegment(segs, alignment, i);
    if i < |segs| - 1 {
      TilesOrdered(segs, alignment, i, |segs| - 1);
    }
  }

  /** The loop of ToolImageEmitPeSections. */
  method EmitSegments(b: Buffer, h: Headers, segs: seq<Segment>, alignment: nat) returns (ok: bool, h': Headers)
    requires b.Valid() && Emittable(segs, alignment)
    requires h == NoSections(h.imageBase, segs[0].address) && b.dataSize == segs[0].address
    modifies b, b.memory
    ensures b.Valid() && (b.memory == old(b.memory) || fresh(b.memory))
    ensures ok ==> Staged(b.Contents(), h', segs, alignment, []) && Unfixed(h') && SameFields(h, h')
    ensures !ok ==> Oversized(ImageSize(segs))
  {
    hide CheckedSegment, TrimmedSize, Holding, InPlace, PlacedAt, NameBytes;
    h' := h;
    InPlaceNothing(h.imageBase, segs[0].address);
    var i := 0;
    while i < |segs|
      invariant 0 <= i <= |segs| && b.Valid() && (b.memory == old(b.memory) || fresh(b.memory))
      invariant b.dataSize == if i == 0 then segs[0].address else segs[i - 1].End()
      invariant h'.sizeOfImage == b.dataSize && |h'.sections| == i
      invariant InPlace(h', b.dataSize, segs[0].address) && Placed(b.Contents(), h', segs, i)
      invariant Unfixed(h') && SameFields(h, h')
    {
      EmittableAt(segs, alignment, i);
      ghost var c, g := b.Contents(), h';
      ok, h' := EmitSection(b, h', segs[i], alignment);
      if !ok {
        return;
      }
      InPlaceSnoc(g, |c|, segs[0].address, SegmentSection(segs[i], |c|));
      PlacedGrows(c, g, segs, i, segs[i].data, h');
      PlacedHere(c, h', segs[i], i);
      i := i + 1;
    }
    ok := true;
  }

  lemma InPlaceNothing(base: nat, first: nat)
    ensures InPlace(NoSections(base, first), first, first) && Unfixed(NoSections(base, first))
  {
  }

  lemma PlacedHere(c: seq<byte>, h: Headers, s: Segment, i: nat)
    requires i < |h.sections| && s.address == |c| && h.sections[i] == SegmentSection(s, |c|)
    ensures PlacedAt(c + s.data, h, s, i)
  {
    HoldingEnd(c, s.data, []);
    assert c + s.data + [] == c + s.data;
  }

  // ---------------------------------------------------------------- appended sections

  /** A section the tool appends. */
  datatype Extra = Extra(name: seq<byte>, bytes: seq<byte>, discardable: bool)

  /** What appended sections add to file and image. */
  function Span(es: seq<Extra>, alignment: nat): (size: nat)
    requires alignment > 0
  {
    if es == [] then 0 else Span(es[..|es| - 1], alignment) + AlignUp(|es[|es| - 1].bytes|, alignment)
  }

  lemma SpanSnoc(es: seq<Extra>, e: Extra, alignment: nat)
    requires alignment > 0
    ensures Span(es + [e], alignment) == Span(es, alignment) + AlignUp(|e.bytes|, alignment)
  {
    assert (es + [e])[..|es|] == es;
  }

  lemma SpanOne(e: Extra, alignment: nat)
    requires alignment > 0
    ensures Span([], alignment) == 0 && Span([e], alignment) == AlignUp(|e.bytes|, alignment)
  {
    SpanSnoc([], e, alignment);
    assert [] + [e] == [e];
  }

  /** What a new section does not change. */
  ghost predicate SameFields(h: Headers, g: Headers) {
    h.imageBase == g.imageBase && h.resourceDir == g.resourceDir && h.relocDir == g.relocDir && h.debugDir == g.debugDir
  }

  /** No section records a fixed address. */
  ghost predicate Unfixed(h: Headers) {
    forall i :: 0 <= i < |h.sections| ==> h.sections[i].fixedBase == 0
  }

  /** The k-th appended section: its header, and its bytes at its address. */
  ghost predicate ExtraAt(c: seq<byte>, h: Headers, n: nat, at: nat, alignment: nat, es: seq<Extra>, k: nat)
    requires k < |es| && n + k < |h.sections| && alignment > 0
  {
    var address, size := at + Span(es[..k], alignment), AlignUp(|es[k].bytes|, alignment);
    && h.sections[n + k].(fixedBase := 0) == ExtraSection(es[k].name, address, size, address, es[k].discardable)
    && Holding(c, address, es[k].bytes)
  }

  /** The file so far is its own image, and consists of the headers, the segments and some appended sections. */
  ghost predicate Staged(c: seq<byte>, h: Headers, segs: seq<Segment>, alignment: nat, es: seq<Extra>) {
    && segs != [] && alignment > 0
    && InPlace(h, |c|, segs[0].address) && |h.sections| == |segs| + |es|
    && Placed(c, h, segs, |segs|) && |c| == ImageSize(segs) + Span(es, alignment)
    && forall k :: 0 <= k < |es| ==> ExtraAt(c, h, |segs|, ImageSize(segs), alignment, es, k)
  }

  lemma StagedSize(c: seq<byte>, h: Headers, segs: seq<Segment>, alignment: nat, es: seq<Extra>)
    requires Staged(c, h, segs, alignment, es)
    ensures h.sizeOfImage == |c|
  {
  }

  lemma StagedSnoc(c: seq<byte>, h: Headers, segs: seq<Segment>, alignment: nat, es: seq<Extra>, e: Extra)
    requires Staged(c, h, segs, alignment, es)
    ensures var size := AlignUp(|e.bytes|, alignment);
            Staged(c + (e.bytes + Zeros(AlignAddend(|e.bytes|, alignment))),
                   h.With(ExtraSection(e.name, |c|, size, |c|, e.discardable)), segs, alignment, es + [e])
  {
    hide Holding, InPlace, PlacedAt, AlignAddend, Span;
    var size, pad := AlignUp(|e.bytes|, alignment), Zeros(AlignAddend(|e.bytes|, alignment));
    var t, fs, more := ExtraSection(e.name, |c|, size, |c|, e.discardable), es + [e], e.bytes + pad;
    var n, at := |segs|, ImageSize(segs);
    StagedSize(c, h, segs, alignment, es);
    InPlaceSnoc(h, |c|, segs[0].address, t);
    PlacedGrows(c, h, segs, n, more, h.With(t));
    SpanSnoc(es, e, alignment);
    forall k | 0 <= k < |fs| ensures ExtraAt(c + more, h.With(t), n, at, alignment, fs, k) {
      if k < |es| {
        assert ExtraAt(c, h, n, at, alignment, es, k);
        assert fs[..k] == es[..k];
        HoldingAppend(c, at + Span(es[..k], alignment), es[k].bytes, more);
      } else {
        assert fs[..k] == es;
        HoldingEnd(c, e.bytes, pad);
        assert c + e.bytes + pad == c + more;
      }
    }
  }

  /** The outcome of appending one section. */
  ghost predicate Appended(c: seq<byte>, h: Headers, segs: seq<Segment>, alignment: nat, es: seq<Extra>, e: Extra) {
    Staged(c, h, segs, alignment, es + [e]) && Unfixed(h)
  }

  lemma FinalizedAppends(c: seq<byte>, h: Headers, segs: seq<Segment>, alignment: nat, es: seq<Extra>, e: Extra, c': seq<byte>)
    requires Staged(c, h, segs, alignment, es) && Unfixed(h)
    requires c' == c + (e.bytes + Zeros(AlignAddend(|e.bytes|, alignment)))
    ensures var t := ExtraSection(e.name, h.sizeOfImage, AlignUp(|e.bytes|, alignment), |c|, e.discardable);
            Appended(c', h.With(t), segs, alignment, es, e)
  {
    hide Staged, AlignAddend;
    StagedSize(c, h, segs, alignment, es);
    StagedSnoc(c, h, segs, alignment, es, e);
  }

  lemma StagedAlignment(c: seq<byte>, h: Headers, segs: seq<Segment>, alignment: nat, es: seq<Extra>)
    requires Staged(c, h, segs, alignment, es)
    ensures alignment > 0
  {
  }

  lemma WrittenHeader(c: seq<byte>, header: seq<byte>, rest: seq<byte>)
    ensures Splice(c + Zeros(|header|) + rest, |c|, header) == c + (header + rest)
  {
    SpliceIndex(c + Zeros(|header|) + rest, |c|, header);
  }

  lemma WrittenTable(c: seq<byte>, path: seq<byte>, at: nat, pad: seq<byte>)
    ensures var header := DebugHeader(at, at, |path| + 1);
            Splice(c + Zeros(|header|) + (path + [0] + pad), |c|, header) == c + (CodeViewTable(path, at) + pad)
  {
    hide DebugHeader, Splice;
    var header := DebugHeader(at, at, |path| + 1);
    WrittenHeader(c, header, path + [0] + pad);
    assert header + (path + [0] + pad) == header + (path + [0]) + pad;
  }

  lemma DirectoriesAside(c: seq<byte>, h: Headers, g: Headers, segs: seq<Segment>, alignment: nat, es: seq<Extra>, e: Extra)
    requires Appended(c, h, segs, alignment, es, e) && g.sizeOfImage == h.sizeOfImage && g.sections == h.sections
    ensures Appended(c, g, segs, alignment, es, e)
  {
    hide Holding, Span;
    assert Placed(c, g, segs, |segs|) by {
      forall i | 0 <= i < |segs| ensures PlacedAt(c, g, segs[i], i) {
        assert PlacedAt(c, h, segs[i], i);
      }
    }
    var fs := es + [e];
    forall k | 0 <= k < |fs| ensures ExtraAt(c, g, |segs|, ImageSize(segs), alignment, fs, k) {
      assert ExtraAt(c, h, |segs|, ImageSize(segs), alignment, fs, k);
    }
  }

  /** The bytes of the resource section: the header goes into space reserved for it. */
  method AppendHii(b: Buffer, data: seq<byte>) returns (ok: bool, offset: uint32)
    requires b.Valid() && |data| < TWO_32
    modifies b, b.memory
    ensures b.Valid() && (b.memory == old(b.memory) || fresh(b.memory))
    ensures ok ==> offset == old(b.dataSize) && b.Contents() == old(b.Contents()) + HiiTable(data)
    ensures !ok ==> Oversized(old(b.dataSize) + |HiiTable(data)|)
  {
    hide HiiHeader, Splice;
    ghost var c := b.Contents();
    offset := b.AppendReserve(HII_HEADER_SIZE);
    ok := offset != MAX_UINT32;
    if !ok {
      return;
    }
    WrittenHeader(c, HiiHeader(0, |data|), []);
    assert c + Zeros(HII_HEADER_SIZE) + [] == c + Zeros(HII_HEADER_SIZE);
    b.Write(offset, HiiHeader(0, |data|));
    var at := b.Append(data);
    ok := at != MAX_UINT32;
  }

  /** ToolImageEmitPeHiiTable. */
  method EmitHiiTable(b: Buffer, h: Headers, data: seq<byte>, alignment: uint32, ghost segs: seq<Segment>, ghost es: seq<Extra>)
    returns (ok: bool, h': Headers)
    requires b.Valid() && Staged(b.Contents(), h, segs, alignment, es) && Unfixed(h) && |data| < TWO_32
    modifies b, b.memory
    ensures b.Valid() && (b.memory == old(b.memory) || fresh(b.memory))
    ensures ok ==>
              && Appended(b.Contents(), h', segs, alignment, es, Extra(RESRC_NAME, HiiTable(data), false))
              && SameFields(h', h.(resourceDir := DataDirectory(old(b.dataSize), |HiiTable(data)|)))
    ensures !ok ==> Oversized(old(b.dataSize) + AlignUp(|HiiTable(data)|, alignment))
  {
    hide Staged, Unfixed, AlignAddend, HiiTable, Appended;
    ghost var c, t := b.Contents(), HiiTable(data);
    StagedAlignment(c, h, segs, alignment, es);
    StagedSize(c, h, segs, alignment, es);
    h' := h;
    var offset;
    ok, offset := AppendHii(b, data);
    if !ok {
      return;
    }
    var size := b.dataSize - offset;
    ok, h' := FinalizeExtra(b, h, RESRC_NAME, size, offset, alignment, false);
    if ok {
      assert c + t + Zeros(AlignAddend(|t|, alignment)) == c + (t + Zeros(AlignAddend(|t|, alignment)));
      FinalizedAppends(c, h, segs, alignment, es, Extra(RESRC_NAME, t, false), b.Contents());
      ghost var g := h';
      h' := h'.(resourceDir := DataDirectory(h'.sections[|h.sections|].virtualAddress, size));
      DirectoriesAside(b.Contents(), g, h', segs, alignment, es, Extra(RESRC_NAME, t, false));
    }
  }

  /** ToolImageEmitPeRelocTable with its section. */
  method EmitRelocSection(b: Buffer, h: Headers, relocs: seq<Reloc>, alignment: uint32, ghost segs: seq<Segment>, ghost es: seq<Extra>)
    returns (ok: bool, h': Headers)
    requires b.Valid() && Staged(b.Contents(), h, segs, alignment, es) && Unfixed(h) && relocs != []
    modifies b, b.memory
    ensures b.Valid() && (b.memory == old(b.memory) || fresh(b.memory))
    ensures var at := old(b.dataSize);
            && (ok ==>
                  && Appended(b.Contents(), h', segs, alignment, es, Extra(RELOC_NAME, PeTable(relocs, at), true))
                  && SameFields(h', h.(relocDir := DataDirectory(at, |PeTable(relocs, at)|))))
            && (!ok ==> Oversized(at + AlignUp(|PeTable(relocs, at)|, alignment)))
  {
    hide Staged, Unfixed, AlignAddend, PeTable, Appended;
    ghost var c, t := b.Contents(), PeTable(relocs, b.dataSize);
    StagedAlignment(c, h, segs, alignment, es);
    StagedSize(c, h, segs, alignment, es);
    h' := h;
    var offset := b.dataSize;
    ok := EmitPeRelocTable(b, relocs);
    if !ok {
      return;
    }
    var size := b.dataSize - offset;
    ok, h' := FinalizeExtra(b, h, RELOC_NAME, size, offset, alignment, true);
    if ok {
      assert c + t + Zeros(AlignAddend(|t|, alignment)) == c + (t + Zeros(AlignAddend(|t|, alignment)));
      FinalizedAppends(c, h, segs, alignment, es, Extra(RELOC_NAME, t, true), b.Contents());
      ghost var g := h';
      h' := h'.(relocDir := DataDirectory(h'.sections[|h.sections|].virtualAddress, size));
      DirectoriesAside(b.Contents(), g, h', segs, alignment, es, Extra(RELOC_NAME, t, true));
    }
  }

  /** ToolImageEmitPeDebugTable: the directory entry is written last, when the section has its address. */
  method EmitDebugTable(b: Buffer, h: Headers, path: seq<byte>, alignment: uint32, ghost segs: seq<Segment>, ghost es: seq<Extra>)
    returns (ok: bool, h': Headers)
    requires b.Valid() && Staged(b.Contents(), h, segs, alignment, es) && Unfixed(h) && |path| < MAX_UINT32
    modifies b, b.memory
    ensures b.Valid() && (b.memory == old(b.memory) || fresh(b.memory))
    ensures var at := old(b.dataSize);
            && (ok ==>
                  && Appended(b.Contents(), h', segs, alignment, es, Extra(DEBUG_NAME, CodeViewTable(path, at), true))
                  && SameFields(h', h.(debugDir := DataDirectory(at, DEBUG_ENTRY_SIZE))))
            && (!ok ==> Oversized(at + AlignUp(|CodeViewTable(path, at)|, alignment)))
  {
    hide Staged, Unfixed, AlignAddend, Appended, DebugHeader, Splice, CodeViewTable, Zeros;
    ghost var c, t := b.Contents(), CodeViewTable(path, b.dataSize);
    StagedAlignment(c, h, segs, alignment, es);
    StagedSize(c, h, segs, alignment, es);
    h' := h;
    var offset := b.AppendReserve(DEBUG_HEADER_SIZE);
    ok := offset != MAX_UINT32;
    if !ok {
      return;
    }
    var at := b.Append(path + [0]);
    ok := at != MAX_UINT32;
    if !ok {
      return;
    }
    var size := b.dataSize - offset;
    ok, h' := FinalizeExtra(b, h, DEBUG_NAME, size, offset, alignment, true);
    if ok {
      var s := h'.sections[|h.sections|];
      ghost var pad := Zeros(AlignAddend(|t|, alignment));
      var header := DebugHeader(s.virtualAddress, s.pointer, size - DEBUG_HEADER_SIZE);
      assert b.Contents() == c + Zeros(|header|) + (path + [0] + pad);
      WrittenTable(c, path, offset, pad);
      b.Write(offset, header);
      FinalizedAppends(c, h, segs, alignment, es, Extra(DEBUG_NAME, t, true), b.Contents());
      ghost var g := h';
      h' := h'.(debugDir := DataDirectory(s.virtualAddress, DEBUG_ENTRY_SIZE));
      DirectoriesAside(b.Contents(), g, h', segs, alignment, es, Extra(DEBUG_NAME, t, true));
    }
  }

  // ---------------------------------------------------------------- the fixed address

  /** The first section that holds no code. */
  function FirstData(s: seq<Section>): (i: nat)
    ensures i <= |s| && (i < |s| ==> !s[i].execute)
    ensures forall j :: 0 <= j < i ==> s[j].execute
  {
    if s == [] || !s[0].execute then 0 else 1 + FirstData(s[1..])
  }

  /** A fixed address is recorded in the first section that holds no code, and nowhere else. */
  ghost predicate Recorded(s: seq<Section>, fixed: bool, base: nat) {
    && (fixed ==> FirstData(s) < |s|)
    && forall i :: 0 <= i < |s| ==> s[i].fixedBase == if fixed && i == FirstData(s) then base else 0
  }

  /** The search of ToolImageEmitPeSections; without a section for data it fails. */
  method RecordBase(h: Headers) returns (ok: bool, h': Headers)
    requires Unfixed(h)
    ensures ok <==> FirstData(h.sections) < |h.sections|
    ensures ok ==>
              && h' == h.(sections := h'.sections) && SameButBase(h.sections, h'.sections)
              && Recorded(h'.sections, true, h.imageBase)
  {
    h' := h;
    var i := 0;
    while i < |h.sections| && h.sections[i].execute
      invariant 0 <= i <= |h.sections| && forall j :: 0 <= j < i ==> h.sections[j].execute
    {
      i := i + 1;
    }
    ok := i < |h.sections|;
    if ok {
      h' := h.(sections := h.sections[i := h.sections[i].(fixedBase := h.imageBase)]);
      assert FirstData(h'.sections) == i by {
        assert forall j :: 0 <= j < i ==> h'.sections[j].execute;
        assert !h'.sections[i].execute;
      }
    }
  }

  /** The same section headers but for a recorded address. */
  ghost predicate SameButBase(s: seq<Section>, t: seq<Section>) {
    |s| == |t| && forall i :: 0 <= i < |s| ==> t[i] == s[i].(fixedBase := t[i].fixedBase)
  }

  lemma StagedStill(c: seq<byte>, h: Headers, g: Headers, segs: seq<Segment>, alignment: nat, es: seq<Extra>)
    requires Staged(c, h, segs, alignment, es) && g.sizeOfImage == h.sizeOfImage && SameButBase(h.sections, g.sections)
    ensures Staged(c, g, segs, alignment, es)
  {
    hide Holding, Span;
    assert InPlace(g, |c|, segs[0].address) by {
      forall i | 0 <= i < |g.sections| ensures SectionInPlace(g.sections, i) {
        assert SectionInPlace(h.sections, i);
      }
    }
    assert Placed(c, g, segs, |segs|) by {
      forall i | 0 <= i < |segs| ensures PlacedAt(c, g, segs[i], i) {
        assert PlacedAt(c, h, segs[i], i);
      }
    }
    forall k | 0 <= k < |es| ensures ExtraAt(c, g, |segs|, ImageSize(segs), alignment, es, k) {
      assert ExtraAt(c, h, |segs|, ImageSize(segs), alignment, es, k);
    }
  }

  // ---------------------------------------------------------------- the file of an image

  function HiiExtra(img: Image): seq<Extra> {
    if img.hiiData == [] then [] else [Extra(RESRC_NAME, HiiTable(img.hiiData), false)]
  }

  /** Where the relocation table goes, if there is one. */
  function RelocsAt(img: Image): nat
    requires img.alignment > 0 && img.segments != []
  {
    ImageSize(img.segments) + Span(HiiExtra(img), img.alignment)
  }

  function RelocExtra(img: Image): seq<Extra>
    requires img.alignment > 0 && img.segments != []
  {
    if img.relocs == [] then [] else [Extra(RELOC_NAME, PeTable(img.relocs, RelocsAt(img)), true)]
  }

  /** Where the debug table goes, if there is one. */
  function DebugAt(img: Image): nat
    requires img.alignment > 0 && img.segments != []
  {
    RelocsAt(img) + Span(RelocExtra(img), img.alignment)
  }

  function DebugExtra(img: Image): seq<Extra>
    requires img.alignment > 0 && img.segments != []
  {
    if img.symbolsPath.None? then [] else [Extra(DEBUG_NAME, CodeViewTable(img.symbolsPath.value, DebugAt(img)), true)]
  }

  /** What the file grows to. */
  function TotalSize(img: Image): nat
    requires img.alignment > 0 && img.segments != []
  {
    DebugAt(img) + Span(DebugExtra(img), img.alignment)
  }

  function Extras(img: Image): seq<Extra>
    requires img.alignment > 0 && img.segments != []
  {
    HiiExtra(img) + RelocExtra(img) + DebugExtra(img)
  }

  function NumSections(img: Image): nat {
    |img.segments|
    + (if img.hiiData != [] then 1 else 0) + (if img.relocs != [] then 1 else 0) + if img.symbolsPath.Some? then 1 else 0
  }

  /** The address the headers record; a 32-bit file keeps its low half. */
  function ImageBase(img: Image, is64: bool): nat {
    if is64 then img.header.baseAddress else img.header.baseAddress % TWO_32
  }

  /** The directories point at the tables. */
  ghost predicate Directed(h: Headers, img: Image)
    requires img.segments != [] && img.alignment > 0
  {
    && h.resourceDir == (if img.hiiData == [] then NO_DIRECTORY
                         else DataDirectory(ImageSize(img.segments), |HiiTable(img.hiiData)|))
    && h.relocDir == (if img.relocs == [] then NO_DIRECTORY
                      else DataDirectory(RelocsAt(img), |PeTable(img.relocs, RelocsAt(img))|))
    && h.debugDir == (if img.symbolsPath.None? then NO_DIRECTORY else DataDirectory(DebugAt(img), DEBUG_ENTRY_SIZE))
  }

  /**
   * An XIP file: it is its own loaded image, with every segment and every table at its address, and the headers say
   * where.
   */
  ghost predicate XipFile(c: seq<byte>, h: Headers, img: Image, is64: bool) {
    && img.segments != [] && img.alignment > 0
    && Staged(c, h, img.segments, img.alignment, Extras(img))
    && h.imageBase == ImageBase(img, is64) && Recorded(h.sections, img.header.fixedAddress, h.imageBase)
    && Directed(h, img)
  }

  /** The headers end where the first segment starts, or before it. */
  predicate FitsInPlace(img: Image, is64: bool)
    requires img.alignment > 0 && img.segments != []
  {
    AlignUp(SizeOfHeaders(is64, NumSections(img)), img.alignment) <= img.segments[0].address
  }

  /** In bytes: 328 or 312 for the headers and 40 for every section must fit before the first segment. */
  lemma FitsIs(img: Image, is64: bool)
    requires CheckedSegments(img.segments, img.alignment)
    ensures var tables := (if img.hiiData == [] then 0 else 1) + (if img.relocs == [] then 0 else 1)
                          + if img.symbolsPath.None? then 0 else 1;
            FitsInPlace(img, is64) <==>
              (if is64 then 328 else 312) + 40 * (|img.segments| + tables) <= img.segments[0].address
  {
    hide AlignUp, IsPow2, CheckedSegment;
    var size := SizeOfHeaders(is64, NumSections(img));
    if size <= img.segments[0].address {
      AlignUpLeast(size, img.segments[0].address, img.alignment);
    }
  }

  /** Every section of the file holds code. */
  predicate AllCode(img: Image) {
    && img.hiiData == [] && img.relocs == [] && img.symbolsPath.None?
    && forall i :: 0 <= i < |img.segments| ==> img.segments[i].execute
  }

  lemma FirstDataOf(c: seq<byte>, h: Headers, img: Image)
    requires img.segments != [] && img.alignment > 0 && Staged(c, h, img.segments, img.alignment, Extras(img))
    ensures FirstData(h.sections) == |h.sections| <==> AllCode(img)
  {
    hide Holding, Span, InPlace, PeTable;
    var n := |img.segments|;
    forall i | 0 <= i < n ensures h.sections[i].execute == img.segments[i].execute {
      assert PlacedAt(c, h, img.segments[i], i);
    }
    if Extras(img) != [] {
      assert ExtraAt(c, h, n, ImageSize(img.segments), img.alignment, Extras(img), 0);
    }
  }

  /** The headers' space, and the check that the first segment follows it. */
  method StartXip(b: Buffer, img: Image, dosHeader: seq<byte>, is64: bool) returns (ok: bool, h: Headers)
    requires b.Valid() && b.Contents() == [] && |dosHeader| == DOS_HEADER_SIZE && NumSections(img) <= 0xFFFF
    requires CheckedSegments(img.segments, img.alignment)
    modifies b, b.memory
    ensures b.Valid() && (b.memory == old(b.memory) || fresh(b.memory))
    ensures ok ==>
              && FitsInPlace(img, is64)
              && h == NoSections(ImageBase(img, is64), img.segments[0].address) && b.dataSize == img.segments[0].address
    ensures !ok ==> !FitsInPlace(img, is64) || Oversized(img.segments[0].address)
  {
    hide CheckedSegment, AlignAddend, IsPow2, NumSections;
    HeadersFit(img.alignment, SizeOfHeaders(is64, NumSections(img)));
    ok, h := ReserveHeaders(b, dosHeader, is64, NumSections(img), img.alignment, img.segments[0].address,
                            ImageBase(img, is64));
    ok := ok && h.sizeOfImage == img.segments[0].address;
  }

  lemma StagedLength(c: seq<byte>, h: Headers, segs: seq<Segment>, alignment: nat, es: seq<Extra>)
    requires Staged(c, h, segs, alignment, es)
    ensures |c| == ImageSize(segs) + Span(es, alignment)
  {
  }

  /** The resource section, if the image has HII data. */
  method EmitResources(b: Buffer, h: Headers, img: Image) returns (ok: bool, h': Headers)
    requires b.Valid() && img.segments != [] && img.alignment > 0 && |img.hiiData| < TWO_32
    requires Staged(b.Contents(), h, img.segments, img.alignment, []) && Unfixed(h)
    modifies b, b.memory
    ensures b.Valid() && (b.memory == old(b.memory) || fresh(b.memory))
    ensures ok ==> Staged(b.Contents(), h', img.segments, img.alignment, HiiExtra(img)) && Unfixed(h')
    ensures ok ==> SameFields(h', if img.hiiData == [] then h
                                       else h.(resourceDir := DataDirectory(ImageSize(img.segments), |HiiTable(img.hiiData)|)))
    ensures !ok ==> Oversized(RelocsAt(img))
  {
    hide Staged, Unfixed, HiiTable, AlignUp, Span;
    ok, h' := true, h;
    if img.hiiData != [] {
      StagedLength(b.Contents(), h, img.segments, img.alignment, []);
      SpanOne(HiiExtra(img)[0], img.alignment);
      assert [] + HiiExtra(img) == HiiExtra(img);
      ok, h' := EmitHiiTable(b, h, img.hiiData, img.alignment, img.segments, []);
    }
  }

  /** The relocation section, if the image has relocations. */
  method EmitRelocations(b: Buffer, h: Headers, img: Image) returns (ok: bool, h': Headers)
    requires b.Valid() && img.segments != [] && img.alignment > 0
    requires Staged(b.Contents(), h, img.segments, img.alignment, HiiExtra(img)) && Unfixed(h)
    modifies b, b.memory
    ensures b.Valid() && (b.memory == old(b.memory) || fresh(b.memory))
    ensures ok ==> Staged(b.Contents(), h', img.segments, img.alignment, HiiExtra(img) + RelocExtra(img)) && Unfixed(h')
    ensures ok ==> SameFields(h', if img.relocs == [] then h
                                       else h.(relocDir := DataDirectory(RelocsAt(img), |PeTable(img.relocs, RelocsAt(img))|)))
    ensures !ok ==> Oversized(DebugAt(img))
  {
    hide Staged, Unfixed, PeTable, AlignUp, HiiExtra, Span;
    ok, h' := true, h;
    if img.relocs != [] {
      StagedLength(b.Contents(), h, img.segments, img.alignment, HiiExtra(img));
      SpanOne(RelocExtra(img)[0], img.alignment);
      ok, h' := EmitRelocSection(b, h, img.relocs, img.alignment, img.segments, HiiExtra(img));
    } else {
      assert HiiExtra(img) + RelocExtra(img) == HiiExtra(img);
    }
  }

  /** The debug section, if the image has a symbols path. */
  method EmitDebugging(b: Buffer, h: Headers, img: Image) returns (ok: bool, h': Headers)
    requires b.Valid() && img.segments != [] && img.alignment > 0
    requires img.symbolsPath.Some? ==> |img.symbolsPath.value| < MAX_UINT32
    requires Staged(b.Contents(), h, img.segments, img.alignment, HiiExtra(img) + RelocExtra(img)) && Unfixed(h)
    modifies b, b.memory
    ensures b.Valid() && (b.memory == old(b.memory) || fresh(b.memory))
    ensures ok ==> Staged(b.Contents(), h', img.segments, img.alignment, Extras(img)) && Unfixed(h')
    ensures ok ==> SameFields(h', if img.symbolsPath.None? then h
                                       else h.(debugDir := DataDirectory(DebugAt(img), DEBUG_ENTRY_SIZE)))
    ensures !ok ==> Oversized(TotalSize(img))
  {
    hide Staged, Unfixed, AlignAddend, HiiExtra, RelocExtra, CodeViewTable, DebugAt;
    ghost var es := HiiExtra(img) + RelocExtra(img);
    ok, h' := true, h;
    if img.symbolsPath.Some? {
      StagedLength(b.Contents(), h, img.segments, img.alignment, es);
      DebugAtIs(img);
      SpanOne(DebugExtra(img)[0], img.alignment);
      ok, h' := EmitDebugTable(b, h, img.symbolsPath.value, img.alignment, img.segments, es);
    } else {
      assert es + DebugExtra(img) == es;
    }
  }

  /** The tables after the segments, each only if required. */
  method EmitTables(b: Buffer, h: Headers, img: Image) returns (ok: bool, h': Headers)
    requires b.Valid() && img.segments != [] && img.alignment > 0
    requires Staged(b.Contents(), h, img.segments, img.alignment, []) && Unfixed(h) && SameFields(h, NoSections(h.imageBase, 0))
    requires |img.hiiData| < TWO_32 && (img.symbolsPath.Some? ==> |img.symbolsPath.value| < MAX_UINT32)
    modifies b, b.memory
    ensures b.Valid() && (b.memory == old(b.memory) || fresh(b.memory))
    ensures ok ==> Staged(b.Contents(), h', img.segments, img.alignment, Extras(img)) && Unfixed(h') && Directed(h', img)
    ensures ok ==> h'.imageBase == h.imageBase
    ensures !ok ==> Oversized(TotalSize(img))
  {
    hide Staged, Unfixed, HiiTable, PeTable, HiiExtra, RelocExtra, DebugExtra, Span;
    ok, h' := EmitResources(b, h, img);
    if ok {
      ok, h' := EmitRelocations(b, h', img);
      if ok {
        ok, h' := EmitDebugging(b, h', img);
      }
    }
  }

  /**
   * ToolImageEmitPeFile in XIP mode, without the encoding of the header fields. A file is its own loaded image. None is
   * produced if the headers do not end before the first segment, if a fixed address finds no section for data, or if
   * the file is too large.
   */
  method EmitXip(b: Buffer, img: Image, dosHeader: seq<byte>, is64: bool) returns (ok: bool, h: Headers)
    requires b.Valid() && b.Contents() == [] && |dosHeader| == DOS_HEADER_SIZE
    requires Emittable(img.segments, img.alignment) && NumSections(img) <= 0xFFFF
    requires |img.hiiData| < TWO_32 && (img.symbolsPath.Some? ==> |img.symbolsPath.value| < MAX_UINT32)
    modifies b, b.memory
    ensures b.Valid() && (b.memory == old(b.memory) || fresh(b.memory))
    ensures ok ==> FitsInPlace(img, is64) && !(img.header.fixedAddress && AllCode(img))
    ensures ok ==> XipFile(b.Contents(), h, img, is64) && h.sizeOfImage == b.dataSize == TotalSize(img)
    ensures ok ==> forall i :: 0 <= i < |h.sections| ==> h.sections[i].pointer == h.sections[i].virtualAddress
    ensures ok && img.header.fixedAddress && (is64 || img.header.baseAddress < TWO_32) ==>
              var k := FirstData(h.sections);
              k < |h.sections| && h.sections[k].fixedBase == h.imageBase == img.header.baseAddress
    ensures !ok ==>
              || !FitsInPlace(img, is64)
              || (img.header.fixedAddress && AllCode(img))
              || Oversized(TotalSize(img))
  {
    hide CheckedSegment, TrimmedSize, IsPow2, FitsInPlace, Staged, Extras, TotalSize, AllCode, Directed, Unfixed;
    TotalAtLeast(img);
    ok, h := StartXip(b, img, dosHeader, is64);
    if !ok {
      return;
    }
    ok, h := EmitSegments(b, h, img.segments, img.alignment);
    if !ok {
      return;
    }
    ok, h := EmitTables(b, h, img);
    if !ok {
      return;
    }
    FirstDataOf(b.Contents(), h, img);
    ghost var g := h;
    if img.header.fixedAddress {
      ok, h := RecordBase(h);
      if !ok {
        return;
      }
    }
    XipIs(b.Contents(), g, h, img, is64);
  }

  lemma TotalAtLeast(img: Image)
    requires CheckedSegments(img.segments, img.alignment)
    ensures img.alignment > 0 && img.segments[0].address <= ImageSize(img.segments) <= TotalSize(img)
  {
    hide IsPow2, CheckedSegment, Span;
    SizeBelow(img.segments, img.alignment);
  }

  lemma XipIs(c: seq<byte>, g: Headers, h: Headers, img: Image, is64: bool)
    requires g.imageBase == ImageBase(img, is64) && img.segments != [] && img.alignment > 0
    requires Staged(c, g, img.segments, img.alignment, Extras(img)) && Unfixed(g) && Directed(g, img)
    requires if img.header.fixedAddress then
               && h == g.(sections := h.sections) && SameButBase(g.sections, h.sections)
               && Recorded(h.sections, true, h.imageBase)
             else h == g
    ensures XipFile(c, h, img, is64) && h.sizeOfImage == |c| == TotalSize(img)
    ensures forall i :: 0 <= i < |h.sections| ==> h.sections[i].pointer == h.sections[i].virtualAddress
  {
    hide Staged, Extras, TotalSize, PeTable, HiiTable;
    if img.header.fixedAddress {
      StagedStill(c, g, h, img.segments, img.alignment, Extras(img));
    }
    StagedSize(c, h, img.segments, img.alignment, Extras(img));
    StagedPointers(c, h, img.segments, img.alignment, Extras(img));
    StagedLength(c, h, img.segments, img.alignment, Extras(img));
    ExtrasSpan(img);
  }

  lemma StagedPointers(c: seq<byte>, h: Headers, segs: seq<Segment>, alignment: nat, es: seq<Extra>)
    requires Staged(c, h, segs, alignment, es)
    ensures forall i :: 0 <= i < |h.sections| ==> h.sections[i].pointer == h.sections[i].virtualAddress
  {
    forall i | 0 <= i < |h.sections| ensures h.sections[i].pointer == h.sections[i].virtualAddress {
      assert SectionInPlace(h.sections, i);
    }
  }

  lemma DebugAtIs(img: Image)
    requires img.alignment > 0 && img.segments != []
    ensures ImageSize(img.segments) + Span(HiiExtra(img) + RelocExtra(img), img.alignment) == DebugAt(img)
  {
    hide HiiTable, PeTable, AlignUp;
    var es := HiiExtra(img);
    if img.relocs != [] {
      SpanSnoc(es, RelocExtra(img)[0], img.alignment);
    } else {
      assert es + RelocExtra(img) == es;
    }
  }

  lemma ExtrasSpan(img: Image)
    requires img.alignment > 0 && img.segments != []
    ensures ImageSize(img.segments) + Span(Extras(img), img.alignment) == TotalSize(img)
  {
    hide CodeViewTable, AlignUp, HiiExtra, RelocExtra, DebugAt;
    var es := HiiExtra(img) + RelocExtra(img);
    DebugAtIs(img);
    if img.symbolsPath.Some? {
      SpanSnoc(es, DebugExtra(img)[0], img.alignment);
      SpanOne(DebugExtra(img)[0], img.alignment);
    } else {
      assert Extras(img) == es;
    }
  }

  lemma HeadersFit(alignment: uint32, size: nat)
    requires alignment > 0 && size <= 0x40_0000
    ensures AlignUp(size, alignment) < TWO_32
  {
    if 0 < size <= alignment {
      AlignUpLeast(size, alignment, alignment);
    }
  }

  lemma SizeBelow(segs: seq<Segment>, alignment: nat)
    requires CheckedSegments(segs, alignment)
    ensures segs[0].address <= ImageSize(segs) < TWO_32
  {
    assert CheckedSegment(segs, alignment, |segs| - 1);
    assert CheckedSegment(segs, alignment, 0);
    if |segs| > 1 {
      TilesOrdered(segs, alignment, 0, |segs| - 1);
    }
  }
}
