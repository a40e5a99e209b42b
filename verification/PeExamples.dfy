/** XIP files exist for every image that is not refused, and images whose files are refused or do not come back. */
module PeExamples {
  import opened Bytes
  import opened DynamicBuffer
  import opened Image
  import opened Truncation
  import opened UeValidate
  import opened PeRelocs
  import opened PeTables
  import opened PeLayout
  import opened PeSegments
  import opened PeReadBack

  // ---------------------------------------------------------------- every image has a file

  /** The segments in place, as EmitSegments leaves them. */
  lemma SegmentsStaged(segs: seq<Segment>, alignment: nat) returns (c: seq<byte>, h: Headers)
    requires CheckedSegments(segs, alignment)
    ensures Staged(c, h, segs, alignment, []) && Unfixed(h) && SameFields(h, NoSections(0, 0))
  {
    hide CheckedSegment, Holding, InPlace, PlacedAt, NameBytes, IsPow2;
    c, h := Zeros(segs[0].address), NoSections(0, segs[0].address);
    InPlaceNothing(0, segs[0].address);
    var i := 0;
    while i < |segs|
      invariant 0 <= i <= |segs| && |c| == (if i == 0 then segs[0].address else segs[i - 1].End())
      invariant h.sizeOfImage == |c| && |h.sections| == i && Unfixed(h) && SameFields(h, NoSections(0, 0))
      invariant InPlace(h, |c|, segs[0].address) && Placed(c, h, segs, i)
    {
      assert segs[i].address == |c| by { Follows(segs, alignment, i); }
      var t := SegmentSection(segs[i], |c|);
      InPlaceSnoc(h, |c|, segs[0].address, t);
      PlacedGrows(c, h, segs, i, segs[i].data, h.With(t));
      PlacedHere(c, h.With(t), segs[i], i);
      c, h := c + segs[i].data, h.With(t);
      i := i + 1;
    }
    NoSpan(alignment);
  }

  lemma Follows(segs: seq<Segment>, alignment: nat, i: nat)
    requires CheckedSegments(segs, alignment) && i < |segs|
    ensures i > 0 ==> segs[i].address == segs[i - 1].End()
  {
    assert CheckedSegment(segs, alignment, i);
  }

  lemma {:induction false} ExtrasStaged(segs: seq<Segment>, alignment: nat, es: seq<Extra>) returns (c: seq<byte>, h: Headers)
    requires CheckedSegments(segs, alignment)
    ensures Staged(c, h, segs, alignment, es) && Unfixed(h) && SameFields(h, NoSections(0, 0))
    decreases |es|
  {
    hide Staged, CheckedSegments;
    if es == [] {
      c, h := SegmentsStaged(segs, alignment);
    } else {
      var n := |es| - 1;
      c, h := ExtrasStaged(segs, alignment, es[..n]);
      StagedAlignment(c, h, segs, alignment, es[..n]);
      StagedSnoc(c, h, segs, alignment, es[..n], es[n]);
      var pad := Zeros(AlignAddend(|es[n].bytes|, alignment));
      h := h.With(ExtraSection(es[n].name, |c|, AlignUp(|es[n].bytes|, alignment), |c|, es[n].discardable));
      c := c + (es[n].bytes + pad);
      assert es[..n] + [es[n]] == es;
    }
  }

  /** The headers RecordBase makes. */
  lemma RecordedBase(h: Headers) returns (g: Headers)
    requires Unfixed(h) && FirstData(h.sections) < |h.sections|
    ensures g == h.(sections := g.sections) && SameButBase(h.sections, g.sections) && Recorded(g.sections, true, h.imageBase)
  {
    var i := FirstData(h.sections);
    g := h.(sections := h.sections[i := h.sections[i].(fixedBase := h.imageBase)]);
    assert forall j :: 0 <= j < i ==> g.sections[j].execute;
    assert !g.sections[i].execute && FirstData(g.sections) == i;
  }

  /** An image has an XIP file if and only if it is not a fixed-address image that consists of code. */
  lemma XipExists(img: Image, is64: bool)
    requires CheckedSegments(img.segments, img.alignment)
    ensures (exists c, h :: XipFile(c, h, img, is64)) <==> !(img.header.fixedAddress && AllCode(img))
  {
    hide Staged, CheckedSegments, Extras, AllCode, Unfixed, HiiTable, PeTable, RelocsAt, DebugAt;
    SizeBelow(img.segments, img.alignment);
    PositiveAlignment(img.segments, img.alignment);
    if c, h :| XipFile(c, h, img, is64) {
      FirstDataOf(c, h, img);
    }
    if !(img.header.fixedAddress && AllCode(img)) {
      var c, g := ExtrasStaged(img.segments, img.alignment, Extras(img));
      var d := WithDirectories(g, img, is64);
      FirstDataOf(c, g, img);
      StagedOver(c, g, d, img.segments, img.alignment, Extras(img));
      var h := d;
      if img.header.fixedAddress {
        h := RecordedBase(d);
      }
      XipIs(c, d, h, img, is64);
    }
  }

  lemma PositiveAlignment(segs: seq<Segment>, alignment: nat)
    requires CheckedSegments(segs, alignment)
    ensures alignment > 0 && segs != []
  {
  }

  ghost function WithDirectories(h: Headers, img: Image, is64: bool): (d: Headers)
    requires img.segments != [] && img.alignment > 0
    ensures d.sections == h.sections && d.sizeOfImage == h.sizeOfImage && Directed(d, img)
    ensures d.imageBase == ImageBase(img, is64)
  {
    h.(imageBase := ImageBase(img, is64),
       resourceDir := if img.hiiData == [] then NO_DIRECTORY
                      else DataDirectory(ImageSize(img.segments), |HiiTable(img.hiiData)|),
       relocDir := if img.relocs == [] then NO_DIRECTORY
                   else DataDirectory(RelocsAt(img), |PeTable(img.relocs, RelocsAt(img))|),
       debugDir := if img.symbolsPath.None? then NO_DIRECTORY else DataDirectory(DebugAt(img), DEBUG_ENTRY_SIZE))
  }

  lemma StagedOver(c: seq<byte>, h: Headers, g: Headers, segs: seq<Segment>, alignment: nat, es: seq<Extra>)
    requires Staged(c, h, segs, alignment, es) && Unfixed(h) && g.sizeOfImage == h.sizeOfImage && g.sections == h.sections
    ensures Staged(c, g, segs, alignment, es) && Unfixed(g)
  {
    hide Staged;
    StagedStill(c, h, g, segs, alignment, es);
  }

  // ---------------------------------------------------------------- images

  /** One page of zeros after the headers, named and with the given permission, fixed at the base or not fixed. */
  function OnePage(name: Option<seq<byte>>, execute: bool, fixed: bool, base: uint64 := 0): Image {
    Image(Header(base, 0x1000, 0x8664, 10, fixed), 0x1000,
          [Segment(0x1000, Zeros(0x1000), true, false, execute, name, 0)], false, [], [], None)
  }

  /** It passes the checker and everything the emitter checks for size. */
  lemma OnePageFits(name: Option<seq<byte>>, execute: bool, fixed: bool, base: uint64 := 0)
    requires base == 0 || base == 0x80_0000
    ensures var img := OnePage(name, execute, fixed, base);
            && Checked(img) && Emittable(img.segments, img.alignment) && NumSections(img) == 1
            && FitsInPlace(img, true) && FitsInPlace(img, false) && TotalSize(img) == 0x2000 && !Oversized(TotalSize(img))
  {
    hide IsPow2, TrimmedSize, Span;
    var img := OnePage(name, execute, fixed, base);
    PageExponent();
    NoSpan(img.alignment);
    TrimmedUnique(img.segments[0].data, 0);
    assert CheckedSegment(img.segments, 0x1000, 0);
    AlignUpLeast(SizeOfHeaders(true, 1), 0x1000, 0x1000);
    AlignUpLeast(SizeOfHeaders(false, 1), 0x1000, 0x1000);
  }

  const TEXT_NAME: seq<byte> := [0x2E, 0x74, 0x65, 0x78, 0x74]

  /** One page of code at a fixed address fits, but is refused: no section can record the address. */
  lemma FixedCodeRefused()
    ensures var img := OnePage(Some(TEXT_NAME), true, true);
            && Checked(img) && FitsInPlace(img, true) && !Oversized(TotalSize(img))
            && img.header.fixedAddress && AllCode(img)
            && !exists c, h :: XipFile(c, h, img, true)
  {
    hide XipFile, Checked, FitsInPlace, TotalSize;
    var img := OnePage(Some(TEXT_NAME), true, true);
    OnePageFits(Some(TEXT_NAME), true, true);
    CheckedParts(img);
    XipExists(img, true);
  }

  lemma CheckedParts(img: Image)
    requires Checked(img)
    ensures CheckedSegments(img.segments, img.alignment)
  {
  }

  /** The image has an XIP file, and none of its XIP files has segments that compare equal to the image's. */
  ghost predicate SegmentsDiffer(img: Image) {
    && (exists c, h :: XipFile(c, h, img, true))
    && (forall c, h :: XipFile(c, h, img, true) ==>
          && Loaded(c, h.sections, img.alignment)
          && !AllAgree(ScanSegments(c, h.sections, img.alignment, |h.sections|), img.segments))
  }

  lemma ImproperDiffers(img: Image)
    requires Checked(img) && !img.header.fixedAddress && !ProperlyNamed(img.segments)
    ensures SegmentsDiffer(img)
  {
    hide XipFile, Checked, AllAgree, ScanSegments, Loaded, ProperlyNamed;
    CheckedParts(img);
    XipExists(img, true);
    forall c, h | XipFile(c, h, img, true)
      ensures Loaded(c, h.sections, img.alignment)
      ensures !AllAgree(ScanSegments(c, h.sections, img.alignment, |h.sections|), img.segments)
    {
      XipSegments(c, h, img, true);
    }
  }

  const DEBUG_STRING: seq<byte> := [0x2E, 0x64, 0x65, 0x62, 0x75, 0x67]

  /** Two images whose XIP files fail the comparison: a segment named .debug is dropped, one without a name gets one. */
  lemma ImproperNames()
    ensures Checked(OnePage(Some(DEBUG_STRING), false, false)) && SegmentsDiffer(OnePage(Some(DEBUG_STRING), false, false))
    ensures Checked(OnePage(None, false, false)) && SegmentsDiffer(OnePage(None, false, false))
  {
    hide SegmentsDiffer, Checked;
    var a, b := OnePage(Some(DEBUG_STRING), false, false), OnePage(None, false, false);
    OnePageFits(Some(DEBUG_STRING), false, false);
    OnePageFits(None, false, false);
    assert NameBytes(a.segments[0].name) == DEBUG_NAME;
    assert Reserved(NameBytes(a.segments[0].name));
    assert b.segments[0].name.None?;
    ImproperDiffers(a);
    ImproperDiffers(b);
  }

  /** One page of data fixed at address 0 is emitted, but comes back as not fixed. */
  lemma FixedAtZeroLost()
    ensures var img := OnePage(Some(TEXT_NAME), false, true);
            && Checked(img) && (exists c, h :: XipFile(c, h, img, true))
            && forall c, h :: XipFile(c, h, img, true) ==> ScanFixed(h, img.alignment) == Some(false)
  {
    hide XipFile, Checked, ScanFixed;
    var img := OnePage(Some(TEXT_NAME), false, true);
    OnePageFits(Some(TEXT_NAME), false, true);
    CheckedParts(img);
    assert !img.segments[0].execute;
    XipExists(img, true);
    forall c, h | XipFile(c, h, img, true) ensures ScanFixed(h, img.alignment) == Some(false) {
      XipFixed(c, h, img, true);
    }
  }

  /** At another address the flag does come back, and the file records that address. */
  lemma FixedComesBack()
    ensures var img := OnePage(Some(TEXT_NAME), false, true, 0x80_0000);
            && Checked(img) && (exists c, h :: XipFile(c, h, img, true))
            && forall c, h :: XipFile(c, h, img, true) ==>
                 && ScanFixed(h, img.alignment) == Some(true)
                 && |h.sections| == 1 && h.sections[0].fixedBase == 0x80_0000
  {
    hide Checked, ScanFixed;
    var img := OnePage(Some(TEXT_NAME), false, true, 0x80_0000);
    OnePageFits(Some(TEXT_NAME), false, true, 0x80_0000);
    CheckedParts(img);
    assert !img.segments[0].execute;
    XipExists(img, true);
    forall c, h | XipFile(c, h, img, true)
      ensures ScanFixed(h, img.alignment) == Some(true) && |h.sections| == 1 && h.sections[0].fixedBase == 0x80_0000
    {
      XipFixed(c, h, img, true);
      assert PlacedAt(c, h, img.segments[0], 0);
    }
  }

  /** Two bytes after the headers, with a symbols path: the debug table starts at an odd multiple of two. */
  function TwoBytes(): Image {
    Image(Header(0, 0x1000, 0x8664, 10, false), 2,
          [Segment(0x1000, Zeros(2), true, false, false, Some(TEXT_NAME), 0)], false, [], [], Some([]))
  }

  /** It is emitted, but the loader refuses its debug directory. */
  lemma MisalignedRefused()
    ensures var img := TwoBytes();
            && Checked(img) && FitsInPlace(img, true) && (exists c, h :: XipFile(c, h, img, true))
            && forall c, h :: XipFile(c, h, img, true) && |c| < TWO_32 ==>
                 ReadPath(c, h.debugDir.address, h.debugDir.size) != Expected(img.symbolsPath)
  {
    hide XipFile, ReadPath, Span, AllCode;
    var img := TwoBytes();
    assert CheckedSegment(img.segments, 2, 0);
    NoSpan(2);
    NotAllCode(img);
    XipExists(img, true);
    AlignUpLeast(SizeOfHeaders(true, 2), 0x1000, 2);
    forall c, h | XipFile(c, h, img, true) && |c| < TWO_32
      ensures ReadPath(c, h.debugDir.address, h.debugDir.size) != Expected(img.symbolsPath)
    {
      XipPath(c, h, img, true);
    }
  }

  lemma NotAllCode(img: Image)
    requires img.symbolsPath.Some?
    ensures !AllCode(img)
  {
  }
}
