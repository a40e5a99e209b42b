/** Reading the segments of a loaded PE image back (PeScan.c), and when an XIP file gives back what was emitted. */
module PeSegments {
  import opened Bytes
  import opened Image
  import opened ToolImages
  import opened UeFile
  import opened UeLoad
  import opened UeValidate
  import opened PeTables
  import opened PeRelocs
  import opened PeLayout

  /** The sections the tool appends itself are no segments. */
  predicate Reserved(name: seq<byte>) { name == RELOC_NAME || name == RESRC_NAME || name == DEBUG_NAME }

  predicate Kept(s: Section) { !s.discardable && !Reserved(s.name) }

  /** What the loader guarantees: every section that is kept lies in the loaded image. */
  predicate InImage(m: seq<byte>, s: Section, alignment: nat) {
    alignment > 0 && s.virtualAddress < TWO_32 && s.virtualAddress + AlignUp(s.virtualSize, alignment) <= |m|
  }

  predicate Loaded(m: seq<byte>, secs: seq<Section>, alignment: nat) {
    forall i :: 0 <= i < |secs| && Kept(secs[i]) ==> InImage(m, secs[i], alignment)
  }

  function ScanSection(m: seq<byte>, s: Section, alignment: nat): (t: Segment)
    requires InImage(m, s, alignment)
  {
    Segment(s.virtualAddress, m[s.virtualAddress..s.virtualAddress + AlignUp(s.virtualSize, alignment)],
            s.read, s.write, s.execute, Some(CString(s.name)), 0)
  }

  /** ScanPeGetSegmentInfo on the first n section headers. */
  function ScanSegments(m: seq<byte>, secs: seq<Section>, alignment: nat, n: nat): (segs: seq<Segment>)
    requires Loaded(m, secs, alignment) && n <= |secs|
    ensures |segs| <= n
  {
    if n == 0 then []
    else
      ScanSegments(m, secs, alignment, n - 1)
      + if Kept(secs[n - 1]) then [ScanSection(m, secs[n - 1], alignment)] else []
  }

  // ---------------------------------------------------------------- the loop

  method CopySection(m: seq<byte>, s: Section, alignment: nat) returns (r: SegmentRef)
    requires InImage(m, s, alignment)
    ensures fresh(r.data) && See(r) == ScanSection(m, s, alignment)
  {
    var size := AlignUp(s.virtualSize, alignment);
    var data := new byte[size](_ => 0);
    var i := 0;
    while i < size
      invariant 0 <= i <= size && forall j :: 0 <= j < i ==> data[j] == m[s.virtualAddress + j]
    {
      data[i] := m[s.virtualAddress + i];
      i := i + 1;
    }
    r := SegmentRef(s.virtualAddress, data, s.read, s.write, s.execute, Some(CString(s.name)), 0);
  }

  /** ScanPeGetSegmentInfo: every kept section becomes a segment with a buffer of its own. */
  method GetSegmentInfo(m: seq<byte>, secs: seq<Section>, alignment: nat) returns (refs: seq<SegmentRef>)
    requires Loaded(m, secs, alignment)
    ensures forall i :: 0 <= i < |refs| ==> fresh(refs[i].data)
    ensures forall i, j :: 0 <= i < j < |refs| ==> refs[i].data != refs[j].data
    ensures Seen(refs) == ScanSegments(m, secs, alignment, |secs|)
  {
    hide ScanSection, InImage, Seen;
    refs := [];
    NothingSeen();
    var i := 0;
    while i < |secs|
      invariant 0 <= i <= |secs|
      invariant forall k :: 0 <= k < |refs| ==> fresh(refs[k].data)
      invariant forall j, k :: 0 <= j < k < |refs| ==> refs[j].data != refs[k].data
      invariant Seen(refs) == ScanSegments(m, secs, alignment, i)
    {
      assert Seen(refs) + [] == Seen(refs);
      if !secs[i].discardable && secs[i].name != RELOC_NAME && secs[i].name != RESRC_NAME && secs[i].name != DEBUG_NAME {
        var r := CopySection(m, secs[i], alignment);
        SeenSnoc(refs, r);
        refs := refs + [r];
      }
      i := i + 1;
    }
  }

  lemma NothingSeen()
    ensures Seen([]) == []
  {
  }

  // ---------------------------------------------------------------- what is kept

  lemma {:induction false} AllKept(m: seq<byte>, secs: seq<Section>, alignment: nat, n: nat)
    requires Loaded(m, secs, alignment) && n <= |secs| && forall i :: 0 <= i < n ==> Kept(secs[i])
    ensures |ScanSegments(m, secs, alignment, n)| == n
    ensures forall i :: 0 <= i < n ==> ScanSegments(m, secs, alignment, n)[i] == ScanSection(m, secs[i], alignment)
  {
    hide ScanSection, InImage, Kept;
    if n > 0 {
      AllKept(m, secs, alignment, n - 1);
    }
  }

  lemma {:induction false} SomeDropped(m: seq<byte>, secs: seq<Section>, alignment: nat, n: nat, k: nat)
    requires Loaded(m, secs, alignment) && k < n <= |secs| && !Kept(secs[k])
    ensures |ScanSegments(m, secs, alignment, n)| < n
  {
    hide ScanSection, InImage, Kept;
    if k < n - 1 {
      SomeDropped(m, secs, alignment, n - 1, k);
    }
  }

  lemma {:induction false} RestDropped(m: seq<byte>, secs: seq<Section>, alignment: nat, k: nat, n: nat)
    requires Loaded(m, secs, alignment) && k <= n <= |secs| && forall i :: k <= i < n ==> !Kept(secs[i])
    ensures ScanSegments(m, secs, alignment, n) == ScanSegments(m, secs, alignment, k)
  {
    hide ScanSection, InImage;
    if k < n {
      RestDropped(m, secs, alignment, k, n - 1);
    }
  }

  // ---------------------------------------------------------------- XIP files

  /** The comparison of segments that output validation makes. */
  predicate AllAgree(dest: seq<Segment>, source: seq<Segment>) {
    |dest| == |source| && forall i :: 0 <= i < |dest| ==> SegmentsAgree(dest[i], source[i])
  }

  /** Every segment has a name, and none of the names is one the tool uses for sections of its own. */
  predicate ProperlyNamed(segs: seq<Segment>) {
    Named(segs) && forall i :: 0 <= i < |segs| ==> !Reserved(NameBytes(segs[i].name))
  }

  lemma XipAt(c: seq<byte>, h: Headers, img: Image, is64: bool, i: nat)
    requires CheckedSegments(img.segments, img.alignment) && XipFile(c, h, img, is64) && i < |img.segments|
    ensures var t, s := h.sections[i], img.segments[i];
            && InImage(c, t, img.alignment) && (Kept(t) <==> !Reserved(NameBytes(s.name)))
            && ScanSection(c, t, img.alignment) == s.(name := Some(CString(NameBytes(s.name))), unpaddedSize := 0)
  {
    hide InPlace, PeTable, NameBytes, CString, Reserved, IsPow2;
    var s := img.segments[i];
    assert PlacedAt(c, h, s, i);
    assert CheckedSegment(img.segments, img.alignment, i);
    ExactlyAligned(|s.data|, img.alignment);
  }

  lemma XipLoaded(c: seq<byte>, h: Headers, img: Image, is64: bool)
    requires CheckedSegments(img.segments, img.alignment) && XipFile(c, h, img, is64)
    ensures Loaded(c, h.sections, img.alignment)
  {
    hide XipFile, InImage, CheckedSegment;
    XipCounts(c, h, img, is64);
    forall i | 0 <= i < |h.sections| && Kept(h.sections[i]) ensures InImage(c, h.sections[i], img.alignment) {
      XipAt(c, h, img, is64, i);
    }
  }

  lemma XipCounts(c: seq<byte>, h: Headers, img: Image, is64: bool)
    requires XipFile(c, h, img, is64)
    ensures |img.segments| <= |h.sections|
    ensures forall i :: |img.segments| <= i < |h.sections| ==> !Kept(h.sections[i])
  {
    hide Holding, Span, InPlace, Placed, PeTable, Extras, Recorded, Directed;
    var n := |img.segments|;
    ExtrasReserved(img);
    forall i | n <= i < |h.sections| ensures !Kept(h.sections[i]) {
      assert ExtraAt(c, h, n, ImageSize(img.segments), img.alignment, Extras(img), i - n);
      assert Reserved(Extras(img)[i - n].name);
    }
  }

  lemma ExtrasReserved(img: Image)
    requires img.segments != [] && img.alignment > 0
    ensures forall k :: 0 <= k < |Extras(img)| ==> Reserved(Extras(img)[k].name)
  {
    hide HiiTable, PeTable, CodeViewTable, RelocsAt, DebugAt;
  }

  lemma NamesComeBack(name: Option<seq<byte>>)
    ensures NamesAgree(Some(CString(NameBytes(name))), name) <==> name.Some?
  {
    hide CString, NamesAgree;
    if name.Some? {
      NameAgrees(name.value);
    } else {
      NoName(CString(NameBytes(name)));
    }
  }

  lemma NoName(name: seq<byte>)
    ensures !NamesAgree(Some(name), None)
  {
  }

  /**
   * The segments of an XIP file, scanned from the file itself, compare equal to the emitted ones if and only if every
   * segment has a name that is none of .reloc, .rsrc and .debug.
   */
  lemma XipSegments(c: seq<byte>, h: Headers, img: Image, is64: bool)
    requires CheckedSegments(img.segments, img.alignment) && XipFile(c, h, img, is64)
    ensures Loaded(c, h.sections, img.alignment)
    ensures AllAgree(ScanSegments(c, h.sections, img.alignment, |h.sections|), img.segments) <==> ProperlyNamed(img.segments)
  {
    hide XipFile, InImage, ScanSection, Kept, Reserved, NameBytes, CString, NamesAgree, CheckedSegment, ScanSegments, Loaded;
    var segs, n, a := img.segments, |img.segments|, img.alignment;
    XipLoaded(c, h, img, is64);
    XipCounts(c, h, img, is64);
    RestDropped(c, h.sections, a, n, |h.sections|);
    var scan := ScanSegments(c, h.sections, a, n);
    forall i | 0 <= i < n
      ensures Kept(h.sections[i]) <==> !Reserved(NameBytes(segs[i].name))
      ensures InImage(c, h.sections[i], a)
      ensures SegmentsAgree(ScanSection(c, h.sections[i], a), segs[i]) <==> segs[i].name.Some?
    {
      XipAt(c, h, img, is64, i);
      NamesComeBack(segs[i].name);
    }
    if k :| 0 <= k < n && Reserved(NameBytes(segs[k].name)) {
      SomeDropped(c, h.sections, a, n, k);
    } else {
      AllKept(c, h.sections, a, n);
    }
  }
}
