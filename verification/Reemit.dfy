/** Emitting a file, scanning it and emitting it again gives the same file. */
module Reemit {
  import opened Bytes
  import opened Image
  import opened Relocation
  import opened Truncation
  import opened StripPrefix
  import opened UeFixups
  import opened UeRoundTrip
  import opened UeBody
  import opened UeFormat
  import opened UeFile
  import opened UeLoad
  import opened UeEndToEnd
  import opened UeValidate
  import opened Pipeline
  import opened ToolImages

  // ---------------------------------------------------------------- sizes computed again are the same

  lemma ShiftExtent(s: Segment, t: Segment, relocs: seq<Reloc>, d: uint32)
    requires d <= s.address && t == s.(address := s.address - d)
    requires forall k :: 0 <= k < |relocs| ==> d <= relocs[k].target
    ensures RelocExtent(t, ShiftRelocs(relocs, d)) == RelocExtent(s, relocs)
  {
    hide RelocExtent;
    var q, e := ShiftRelocs(relocs, d), RelocExtent(s, relocs);
    assert forall k :: 0 <= k < |relocs| ==> Inside(t, q[k]) == Inside(s, relocs[k]) && q[k].End() == relocs[k].End() - d;
    if e > 0 {
      var k :| 0 <= k < |relocs| && Inside(s, relocs[k]) && relocs[k].End() == s.address + e;
      assert Inside(t, q[k]) && q[k].End() == t.address + e;
    }
    ExtentUnique(t, q, e);
  }

  lemma SameUnpadded(s: Segment, t: Segment, relocs: seq<Reloc>)
    requires s.address == t.address && s.data == t.data
    ensures UnpaddedSize(s, relocs) == UnpaddedSize(t, relocs)
  {
    hide RelocExtent, TrimmedSize;
    SameExtent(s, t, relocs);
  }

  /** The sizes of a prepared image are the sizes its own bytes and relocations call for. */
  lemma PreparedSizes(img: Image, i: nat)
    requires Checked(img) && !img.relocsStripped && i < |img.segments|
    ensures Prepared(img, false).Some? && |Prepared(img, false).value.segments| == |img.segments|
    ensures var out := Prepared(img, false).value;
            out.segments[i].unpaddedSize == UnpaddedSize(out.segments[i], out.relocs)
  {
    hide UnpaddedSize, RelocateAll, Truncate, StripEmptyPrefix, CheckedSegment, AllHold, Ordered, Truncated;
    hide ShiftSegments, AtLeast;
    WithSizesChecked(img);
    var a := WithSizes(img);
    var d, s := WrapSub(0, a.segments[0].address), a.segments[0].address;
    StripValue(a);
    var t := RelocateAll(a.segments, a.relocs, d);
    UnpaddedRelocates(a.segments, a.alignment, a.relocs, d, i);
    SameUnpadded(img.segments[i], a.segments[i], img.relocs);
    AboveFirst(a);
    ShiftUnpadded(a.segments, t, a.relocs, s, i);
  }

  lemma ShiftUnpadded(segs: seq<Segment>, t: seq<Segment>, relocs: seq<Reloc>, d: uint32, i: nat)
    requires SameShape(segs, t) && AtLeast(segs, relocs, d) && i < |t|
    ensures UnpaddedSize(ShiftSegments(t, d)[i], ShiftRelocs(relocs, d)) == UnpaddedSize(t[i], relocs)
  {
    hide RelocExtent, TrimmedSize;
    ShiftExtent(t[i], ShiftSegments(t, d)[i], relocs, d);
  }

  // ---------------------------------------------------------------- the image that is emitted the second time

  /** The segments with the names a scan finds, but the sizes they were emitted with. */
  ghost function Renamed(segs: seq<Segment>, named: bool): (t: seq<Segment>)
    requires named ==> Named(segs)
    ensures |t| == |segs|
    ensures forall i :: 0 <= i < |t| ==> t[i] == segs[i].(name := ScannedSegment(segs[i], named).name)
  {
    if segs == [] then []
    else [segs[0].(name := ScannedSegment(segs[0], named).name)] + Renamed(segs[1..], named)
  }

  lemma RescannedSizes(img: Image)
    requires Checked(img) && !img.relocsStripped && Prepared(img, false).Some?
    requires var out := Prepared(img, false).value; out.symbolsPath.Some? ==> Named(out.segments)
    ensures var out := Prepared(img, false).value;
            WithSizes(Rescanned(out)).segments == Renamed(out.segments, out.symbolsPath.Some?)
  {
    hide Prepared, UnpaddedSize, Checked, CString, NameField;
    var out := Prepared(img, false).value;
    var q := Rescanned(out);
    PreparedLength(img);
    forall i | 0 <= i < |out.segments| ensures WithSizes(q).segments[i] == Renamed(out.segments, out.symbolsPath.Some?)[i] {
      PreparedSizes(img, i);
      SameUnpadded(out.segments[i], q.segments[i], out.relocs);
    }
  }

  lemma PreparedLength(img: Image)
    requires Checked(img) && Prepared(img, false).Some?
    ensures |Prepared(img, false).value.segments| == |img.segments|
  {
    PreparedEmittable(img, false);
    PreparedRestrictions(img);
  }

  /** There is nothing to strip in front of a first segment at address 0. */
  lemma StripNothing(img: Image)
    requires Checked(img) && !img.relocsStripped && img.segments[0].address == 0
    ensures StripEmptyPrefix(img) == Some(img)
  {
    hide RelocateAll, StripEmptyPrefix, CheckedSegment, AllHold, Ordered;
    StripValue(img);
    RelocateAllZero(img.segments, img.relocs);
    assert ShiftSegments(img.segments, 0) == img.segments;
    assert ShiftRelocs(img.relocs, 0) == img.relocs;
  }

  /** What is emitted the second time: the first image but for what a scan cuts off or drops. */
  ghost function Again(img: Image): Image
    requires img.symbolsPath.Some? ==> Named(img.segments)
  {
    img.(header := img.header.(subsystem := SubsystemField(img.header.subsystem) + 10),
         segments := Renamed(img.segments, img.symbolsPath.Some?),
         symbolsPath := if img.symbolsPath == Some([]) then None else img.symbolsPath)
  }

  lemma PreparedAgain(img: Image)
    requires Checked(img) && !img.relocsStripped && Prepared(img, false).Some?
    requires var out := Prepared(img, false).value; HeaderFits(out) && (out.symbolsPath.Some? ==> Named(out.segments))
    ensures var out := Prepared(img, false).value;
            && Emittable(out) && Checked(Rescanned(out)) && !out.relocsStripped
            && Prepared(Rescanned(out), false) == Some(Again(out))
  {
    hide UnpaddedSize, CheckedSegment, CheckedRelocs, ScannedSegments, Renamed, StripEmptyPrefix, Truncated, Truncate;
    hide WithSizes;
    PreparedEmittable(img, false);
    var out := Prepared(img, false).value;
    RescannedChecked(out);
    RescannedSizes(img);
    PreparedKeeps(img);
    var q := Rescanned(out);
    WithSizesChecked(q);
    SizesOnly(q);
    RenamedFirst(out.segments, out.symbolsPath.Some?);
    StripNothing(WithSizes(q));
  }

  lemma SizesOnly(img: Image)
    ensures WithSizes(img) == img.(segments := WithSizes(img).segments)
  {
  }

  lemma RenamedFirst(segs: seq<Segment>, named: bool)
    requires segs != [] && (named ==> Named(segs))
    ensures Renamed(segs, named)[0].address == segs[0].address
  {
  }

  lemma PreparedKeeps(img: Image)
    requires Checked(img) && Prepared(img, false).Some?
    ensures Prepared(img, false).value.relocsStripped == img.relocsStripped
  {
    hide RelocateAll, CheckedSegments, CheckedRelocs, Truncate;
    WithSizesChecked(img);
    StripSucceeds(WithSizes(img));
    StripValue(WithSizes(img));
  }

  // ---------------------------------------------------------------- the file does not depend on the names

  /** The same segments but for their names. */
  ghost predicate SameStorage(s: seq<Segment>, t: seq<Segment>) {
    |s| == |t| && forall i :: 0 <= i < |s| ==> t[i] == s[i].(name := t[i].name)
  }

  lemma {:induction false} SameBodies(s: seq<Segment>, t: seq<Segment>)
    requires |s| == |t| && Sized(s)
    requires forall i :: 0 <= i < |s| ==> s[i].data == t[i].data && s[i].unpaddedSize == t[i].unpaddedSize
    ensures Sized(t) && Body(t) == Body(s)
  {
    if s != [] {
      SameBodies(s[1..], t[1..]);
    }
  }

  lemma {:induction false} SameTables(s: seq<Segment>, t: seq<Segment>)
    requires SameStorage(s, t) && AllPermitted(s)
    ensures AllPermitted(t) && SegmentTable(t) == SegmentTable(s)
  {
    hide ToLe;
    forall i | 0 <= i < |t| ensures Permissions(t[i]).Some? {
      assert Permissions(s[i]).Some?;
    }
    if s != [] {
      SameTables(s[1..], t[1..]);
    }
  }

  /** Images that differ at most in their names, the symbols path, and bits of the subsystem the format does not keep. */
  ghost predicate Alike(a: Image, b: Image) {
    && b == a.(header := a.header.(subsystem := SubsystemField(a.header.subsystem) + 10), segments := b.segments,
               symbolsPath := b.symbolsPath)
    && SameStorage(a.segments, b.segments)
  }

  lemma SameStorageRelabelled(s: seq<Segment>, t: seq<Segment>)
    requires SameStorage(s, t)
    ensures Relabelled(s, t)
  {
  }

  /** The packed segments differ in their names only. */
  lemma SamePacked(a: Image, b: Image)
    requires Checked(a) && Checked(b) && Alike(a, b)
    requires Fixups(a).Some? && Sized(PackedSegments(a))
    ensures Fixups(b) == Fixups(a)
    ensures Sized(PackedSegments(b)) && Body(PackedSegments(b)) == Body(PackedSegments(a))
  {
    hide Plan, Chained, CheckedSegment, WellFormed, Sized, Body, AllHold, Ordered;
    SameStorageRelabelled(a.segments, b.segments);
    RelabelledHold(a.segments, b.segments, a.relocs);
    RelabelledPlan(a.segments, b.segments, a.relocs, Chaining(a.header));
    FixupsFacts(a);
    FixupsFacts(b);
    RelabelledChained(a.segments, b.segments, Fixups(a).value, Chaining(a.header), 0);
    SameBodies(PackedSegments(a), PackedSegments(b));
  }

  /** The file up to the debug table. */
  ghost function Undebugged(img: Image, debugSize: nat): (f: seq<byte>)
    requires Emittable(img) && HeaderFits(img) && Fixups(img).Some?
  {
    PackedSized(img);
    var p := Prefix(img, |RelocBytes(img)|, debugSize) + Body(PackedSegments(img));
    p + Zeros(AlignAddend(|p|, 8)) + RelocBytes(img)
  }

  lemma FileIs(img: Image, subtrahend: uint32)
    requires Emittable(img)
    ensures FileBytes(img, subtrahend).Some? <==>
              HeaderFits(img) && Fixups(img).Some? && DebugTable(img, subtrahend).Some?
    ensures FileBytes(img, subtrahend).Some? ==>
              var d := DebugTable(img, subtrahend).value;
              FileBytes(img, subtrahend).value == Undebugged(img, |d|) + d
  {
    hide Prefix, Body, PackedSegments, DebugTable, HeaderFits, CheckedSegment, CheckedRelocs, Truncated, AlignAddend;
    hide PaddedTable, Fixups;
  }

  lemma SameHeaders(a: Image, b: Image, relocSize: nat, debugSize: nat)
    requires Checked(a) && Checked(b) && Alike(a, b) && HeaderFits(a)
    ensures HeaderFits(b)
    ensures a.symbolsPath == b.symbolsPath ==> Prefix(b, relocSize, debugSize) == Prefix(a, relocSize, debugSize)
  {
    hide CheckedSegment, CheckedRelocs, SegmentTable, FileHeader, ImageInfo, UeMachine, Exponent, AllPermitted;
    SameTables(a.segments, b.segments);
  }

  lemma SameFront(a: Image, b: Image, debugSize: nat)
    requires Emittable(a) && Emittable(b) && Alike(a, b) && HeaderFits(a) && Fixups(a).Some?
    ensures HeaderFits(b) && Fixups(b).Some?
    ensures a.symbolsPath == b.symbolsPath ==> Undebugged(b, debugSize) == Undebugged(a, debugSize)
  {
    hide Prefix, Body, PackedSegments, HeaderFits, Fixups, Truncated, AlignAddend, CheckedSegment, CheckedRelocs;
    hide Alike, PaddedTable;
    AlikeRelocs(a, b);
    PackedSized(a);
    SamePacked(a, b);
    SameHeaders(a, b, |RelocBytes(a)|, debugSize);
  }

  lemma AlikeRelocs(a: Image, b: Image)
    requires Alike(a, b)
    ensures a.relocs == b.relocs && a.alignment == b.alignment
  {
  }

  // ---------------------------------------------------------------- the debug table

  /** Names are C strings. */
  ghost predicate NulFree(segs: seq<Segment>) {
    forall i, j :: 0 <= i < |segs| && segs[i].name.Some? && 0 <= j < |segs[i].name.value| ==> segs[i].name.value[j] != 0
  }

  lemma {:induction false} CStringIs(bytes: seq<byte>, k: nat)
    requires k < |bytes| && bytes[k] == 0 && forall j :: 0 <= j < k ==> bytes[j] != 0
    ensures CString(bytes) == bytes[..k]
    decreases bytes
  {
    if k > 0 {
      CStringIs(bytes[1..], k - 1);
      assert [bytes[0]] + bytes[1..][..k - 1] == bytes[..k];
    }
  }

  lemma NameAgain(name: seq<byte>)
    requires forall j :: 0 <= j < |name| ==> name[j] != 0
    ensures NameField(CString(NameField(name))) == NameField(name)
  {
    hide CString;
    var m := if |name| < 7 then |name| else 7;
    CStringIs(NameField(name), m);
    assert NameField(name)[..m] == name[..m];
  }

  lemma {:induction false} NamesAgain(segs: seq<Segment>)
    requires Named(segs) && NulFree(segs)
    ensures Named(Renamed(segs, true)) && NameFields(Renamed(segs, true)) == NameFields(segs)
  {
    hide NameField, CString;
    if segs != [] {
      NameAgain(segs[0].name.value);
      NamesAgain(segs[1..]);
    }
  }

  /** The two debug tables have the same size and differ exactly if the first one records a stripped prefix. */
  lemma DebugAgain(img: Image, subtrahend: uint32, again: Image)
    requires img.alignment > 0 && DebugTable(img, subtrahend).Some? && NulFree(img.segments)
    requires img.symbolsPath.Some? ==> Named(img.segments)
    requires again == Again(img) && img.symbolsPath != Some([])
    ensures DebugTable(again, 0).Some? && |DebugTable(again, 0).value| == |DebugTable(img, subtrahend).value|
    ensures DebugTable(again, 0) == DebugTable(img, subtrahend)
            <==> img.symbolsPath.None? || subtrahend / img.alignment % 0x100 == 0
  {
    hide NameFields, AlignAddend, Renamed, CString, NameField;
    if img.symbolsPath.Some? {
      NamesAgain(img.segments);
      DivModUnique(0, img.alignment, 0, 0);
      var path, names := img.symbolsPath.value, NameFields(img.segments);
      var factor := subtrahend / img.alignment % 0x100;
      var t, u := [factor, |path|] + path + [0] + names, [0, |path|] + path + [0] + names;
      assert DebugTable(img, subtrahend).value == t + Zeros(AlignAddend(|t|, 8));
      assert DebugTable(again, 0).value == u + Zeros(AlignAddend(|t|, 8));
      assert (t + Zeros(AlignAddend(|t|, 8)))[0] == factor && (u + Zeros(AlignAddend(|t|, 8)))[0] == 0;
    }
  }

  lemma AgainAlike(img: Image)
    requires img.symbolsPath.Some? ==> Named(img.segments)
    ensures Alike(img, Again(img))
  {
  }

  /** The debug table is reproduced: there is none, or it has a path and records no stripped prefix. */
  predicate Reproducible(img: Image, subtrahend: nat)
    requires img.alignment > 0
  {
    img.symbolsPath.None? || (img.symbolsPath != Some([]) && subtrahend / img.alignment % 0x100 == 0)
  }

  /** The second file: the same up to the debug table, and the same altogether exactly if that is reproduced. */
  lemma FileAgain(img: Image, subtrahend: uint32)
    requires Emittable(img) && FileBytes(img, subtrahend).Some? && |FileBytes(img, subtrahend).value| < TWO_32
    requires img.symbolsPath.Some? ==> Named(img.segments)
    requires Emittable(Again(img)) && NulFree(img.segments)
    ensures FileBytes(Again(img), 0).Some?
    ensures FileBytes(Again(img), 0) == FileBytes(img, subtrahend) <==> Reproducible(img, subtrahend)
  {
    hide FileBytes, DebugTable, Truncated, CheckedSegment, CheckedRelocs, HeaderFits, Fixups, Undebugged, Again;
    hide NulFree, Named, Alike;
    var again := Again(img);
    FileIs(img, subtrahend);
    var d := DebugTable(img, subtrahend).value;
    AgainAlike(img);
    SameFront(img, again, |d|);
    FileIs(again, 0);
    if img.symbolsPath == Some([]) {
      AgainBare(img);
      PathDropped(img, subtrahend, again);
    } else {
      AgainPath(img);
      DebugAgain(img, subtrahend, again);
      SameTail(Undebugged(img, |d|), d, DebugTable(again, 0).value);
    }
  }

  lemma AgainPath(img: Image)
    requires (img.symbolsPath.Some? ==> Named(img.segments)) && img.symbolsPath != Some([])
    ensures Again(img).symbolsPath == img.symbolsPath
  {
  }

  /** A table for an empty path is not written again. */
  lemma AgainBare(img: Image)
    requires img.symbolsPath == Some([]) && Named(img.segments)
    ensures Again(img).symbolsPath == None && Again(img).relocs == img.relocs
    ensures Again(img).alignment > 0 ==> DebugTable(Again(img), 0) == Some([])
  {
  }

  /** A file with a debug table is no file without one: they announce different numbers of tables. */
  lemma PathDropped(a: Image, subtrahend: uint32, b: Image)
    requires Emittable(a) && FileBytes(a, subtrahend).Some? && |FileBytes(a, subtrahend).value| < TWO_32 && a.symbolsPath.Some?
    requires Emittable(b) && b.symbolsPath.None? && b.relocs == a.relocs
    ensures FileBytes(b, 0) != FileBytes(a, subtrahend)
  {
    hide FileBytes, Emittable, ParseContext, EmittedInto;
    var file := FileBytes(a, subtrahend).value;
    if FileBytes(b, 0) == Some(file) {
      EmittedParses(a, subtrahend, file);
      EmittedParses(b, 0, file);
      TablesOf(a, subtrahend, file);
      TablesOf(b, 0, file);
    }
  }

  lemma TablesOf(img: Image, subtrahend: uint32, file: seq<byte>)
    requires Emitted(img, subtrahend, file)
    ensures |EmittedInto(img, subtrahend, file).tables| == NumTables(img)
  {
    hide FileBytes, RelocBytes, DebugTable;
    EmittedHas(img, subtrahend, file);
  }

  lemma SameTail(f: seq<byte>, d: seq<byte>, e: seq<byte>)
    ensures f + d == f + e <==> d == e
  {
    assert (f + d)[|f|..] == d && (f + e)[|f|..] == e;
  }

  /**
   * Re-emission: a UE file that is scanned and emitted again comes out byte for byte the same, unless its relocations
   * have been stripped, which cannot be emitted again, or it has a debug table that records a stripped prefix, which
   * the second emission finds empty, or that holds an empty path, which the scan does not report.
   */
  lemma EmitAgain(img: Image, strip: bool)
    requires Checked(img) && EmitUe(img, strip).Some? && |EmitUe(img, strip).value.1| < TWO_32 && NulFree(img.segments)
    ensures var file := EmitUe(img, strip).value.1;
            && ScanUe(file).Some? && Checked(ScanUe(file).value)
            && (EmitUe(ScanUe(file).value, false).Some? <==> !strip)
            && (EmitUe(ScanUe(file).value, true).Some? ==> !strip)
            && (EmitUe(ScanUe(file).value, false).Some? && EmitUe(ScanUe(file).value, false).value.1 == file
                <==> !strip && Reproducible(img, img.segments[0].address))
  {
    hide FileBytes, Prepared, ScanUe, Emittable, Again, NulFree, Named, Checked, HeaderFits, Rescanned;
    CheckedSome(img);
    var (out, file) := EmitUe(img, strip).value;
    var s := img.segments[0].address;
    PreparedEmittable(img, strip);
    EmittedAgain(img, out, s, file);
    RescannedChecked(out);
    PreparedEmittable(Rescanned(out), false);
    PreparedEmittable(Rescanned(out), true);
    PreparedStripped(img, strip);
    RescannedStripped(out);
    if !strip {
      PreparedRestrictions(img);
      PreparedNames(img);
      PreparedAgain(img);
      FileAgain(out, s);
      RescannedFirst(out);
    }
  }

  lemma PreparedStripped(img: Image, strip: bool)
    requires Checked(img) && Prepared(img, strip).Some?
    ensures Prepared(img, strip).value.relocsStripped == strip
  {
    hide Checked;
    PreparedEmittable(img, strip);
    PreparedEmittable(img, false);
    PreparedKeeps(img);
    PreparedMeaning(img);
  }

  lemma RescannedStripped(out: Image)
    requires out.symbolsPath.Some? ==> Named(out.segments)
    ensures Rescanned(out).relocsStripped == out.relocsStripped
  {
  }

  lemma EmittedAgain(img: Image, out: Image, s: uint32, file: seq<byte>)
    requires Emittable(out) && FileBytes(out, s) == Some(file) && |file| < TWO_32
    ensures HeaderFits(out) && (out.symbolsPath.Some? ==> Named(out.segments))
    ensures ScanUe(file) == Some(Rescanned(out))
  {
    EmittedHas(out, s, file);
    EmittedScans(out, s, file);
  }

  lemma RescannedFirst(out: Image)
    requires Emittable(out) && (out.symbolsPath.Some? ==> Named(out.segments))
    ensures Rescanned(out).segments != [] && Rescanned(out).segments[0].address == 0
  {
  }

  lemma PreparedNames(img: Image)
    requires Checked(img) && !img.relocsStripped && NulFree(img.segments)
    ensures Prepared(img, false).Some? && NulFree(Prepared(img, false).value.segments)
  {
    hide Prepared, Checked, Permissions;
    PreparedRestrictions(img);
  }

  // ---------------------------------------------------------------- two files that are not reproduced

  /** One page of zeros at the given address, with a symbols path. */
  function PageAt(address: uint32, path: seq<byte>): Image {
    Image(Header(0, address, 0x8664, 10, false), 0x1000,
          [Segment(address, Zeros(0x1000), true, false, false, Some([]), 0)], false, [], [], Some(path))
  }

  lemma PageAtEmits(address: uint32, path: seq<byte>)
    requires (address == 0 || address == 0x1000) && |path| <= 1
    ensures var img := PageAt(address, path); Checked(img) && NulFree(img.segments) && EmitUe(img, false).Some?
  {
    hide IsPow2, Exponent, EmitUe;
    var img := PageAt(address, path);
    PageExponent();
    assert CheckedSegment(img.segments, 0x1000, 0);
    assert Permissions(img.segments[0]).Some?;
    assert UeMachine(0x8664) == Some(1);
    EmitUeSucceeds(img, false);
  }

  /** The file is small. */
  lemma PageAtSmall(address: uint32, path: seq<byte>)
    requires Checked(PageAt(address, path)) && EmitUe(PageAt(address, path), false).Some? && |path| <= 1
    ensures |EmitUe(PageAt(address, path), false).value.1| < TWO_32
  {
    hide Prepared, FileBytes, Checked, Undebugged, DebugTable, NameFields, Emittable;
    var img := PageAt(address, path);
    var (out, file) := EmitUe(img, false).value;
    PreparedEmittable(img, false);
    PreparedRestrictions(img);
    PreparedNoRelocs(img);
    FileIs(out, address);
    FrontSmall(out, |DebugTable(out, address).value|);
    DebugSmall(out, address);
  }

  lemma DebugSmall(img: Image, subtrahend: uint32)
    requires img.alignment > 0 && DebugTable(img, subtrahend).Some? && |img.segments| == 1
    requires img.symbolsPath.Some? ==> |img.symbolsPath.value| <= 1
    ensures |DebugTable(img, subtrahend).value| < 0x100
  {
    hide NameFields;
  }

  lemma PreparedNoRelocs(img: Image)
    requires Checked(img) && !img.relocsStripped && img.relocs == [] && |img.segments| == 1
    ensures Prepared(img, false).Some?
    ensures var out := Prepared(img, false).value;
            out.relocs == [] && |out.segments| == 1 && |out.segments[0].data| == |img.segments[0].data|
  {
    hide RelocateAll, CheckedSegments, CheckedRelocs, Truncate;
    WithSizesChecked(img);
    StripSucceeds(WithSizes(img));
    StripValue(WithSizes(img));
  }

  lemma FrontSmall(img: Image, debugSize: nat)
    requires Emittable(img) && HeaderFits(img) && Fixups(img).Some? && img.relocs == []
    requires |img.segments| == 1 && |img.segments[0].data| == 0x1000
    ensures |Undebugged(img, debugSize)| < TWO_32 - 0x100
  {
    hide Checked, Prefix, Body, PackedSegments, Truncated, Fixups, RelocBytes, AlignAddend;
    PackedFacts(img);
    PackedSized(img);
    OneEntry(img.segments);
  }

  lemma OneEntry(segs: seq<Segment>)
    requires |segs| == 1 && AllPermitted(segs) && Sized(segs)
    ensures StoredSize(Entries(segs)) <= |segs[0].data|
  {
    assert Entries(segs) == [EntryOf(segs[0])];
    assert [EntryOf(segs[0])][1..] == [];
  }

  /** A page behind an empty prefix and a page with an empty path: their files are not what re-emission gives. */
  lemma NotReproduced(address: uint32, path: seq<byte>)
    requires (address == 0x1000 && path == [0x61]) || (address == 0 && path == [])
    ensures var img := PageAt(address, path);
            && Checked(img) && EmitUe(img, false).Some?
            && var file := EmitUe(img, false).value.1;
               && ScanUe(file).Some? && Checked(ScanUe(file).value) && EmitUe(ScanUe(file).value, false).Some?
               && EmitUe(ScanUe(file).value, false).value.1 != file
  {
    hide EmitUe, Checked, NulFree, ScanUe;
    PageAtEmits(address, path);
    PageAtSmall(address, path);
    EmitAgain(PageAt(address, path), false);
  }
}
