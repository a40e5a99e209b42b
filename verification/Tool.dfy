/** The tool's top level on mutable images: emission, comparison and output validation (UeEmit.c, Image.c, ImageToolEmit.c). */
module Tool {
  import opened Bytes
  import opened DynamicBuffer
  import opened Image
  import opened Truncation
  import opened Meaning
  import opened ToolImages
  import opened RelocRecords
  import opened UeFile
  import opened UeLoad
  import opened UeScanner
  import opened UeEmit
  import opened UeValidate
  import opened Pipeline

  // ---------------------------------------------------------------- ToolImageEmitUe

  /** ImageInitUnpaddedSize and ToolImageEmitUePadChainedRelocs. */
  method ComputeSizes(image: ToolImage)
    requires image.Valid() && Checked(image.Value())
    modifies image`segments
    ensures image.Valid() && image.Value() == WithSizes(old(image.Value()))
    ensures image.Buffers() == old(image.Buffers())
  {
    hide Trimmed, Stretched, Truncate, TrimmedSize;
    ghost var before := image.Value();
    ghost var refs := image.segments;
    image.InitUnpaddedSize();
    TrimmedChecked(before);
    image.PadChainedRelocs();
    PassesTruncate(before.segments, before.relocs);
  }

  lemma TrimmedChecked(img: Image)
    requires Checked(img)
    ensures CheckedSegments(Trimmed(img.segments), img.alignment) && CheckedRelocs(Trimmed(img.segments), img.relocs)
  {
    hide Trimmed, TrimmedSize, Holds;
    var t := Trimmed(img.segments);
    forall i | 0 <= i < |t| ensures CheckedSegment(t, img.alignment, i) {
      assert CheckedSegment(img.segments, img.alignment, i);
    }
    forall k | 0 <= k < |img.relocs| ensures CheckedReloc(t, img.relocs[k]) {
      assert CheckedReloc(img.segments, img.relocs[k]);
      SameBytesHold(img.segments, t, img.relocs[k].target, RelocSize(img.relocs[k].ty));
    }
  }

  lemma SameBytesHold(s: seq<Segment>, t: seq<Segment>, a: nat, n: nat)
    requires SameBytes(s, t) && Holds(s, a, n)
    ensures Holds(t, a, n)
  {
    SameBytesLocate(s, t, a);
  }

  /** Everything ToolImageEmitUe does to the image before it writes the file. */
  method PrepareUe(image: ToolImage, strip: bool) returns (ok: bool, subtrahend: uint32)
    requires image.Valid() && Checked(image.Value())
    modifies image, image.Buffers()
    ensures image.Valid()
    ensures ok <==> Prepared(old(image.Value()), strip).Some?
    ensures ok ==>
              && image.Value() == Prepared(old(image.Value()), strip).value
              && subtrahend == old(image.Value()).segments[0].address
  {
    hide Checked, StripPrefix.StripEmptyPrefix, Truncate, Seen;
    WithSizesChecked(image.Value());
    CheckedFirst(image.Value());
    ComputeSizes(image);
    ok, subtrahend := image.StripEmptyPrefix();
    if ok && strip {
      image.StripRelocs();
    }
  }

  /** ToolImageEmitUe for an output that is not XIP; the image is changed in place. */
  method EmitUe(image: ToolImage, strip: bool) returns (file: Option<seq<byte>>)
    requires image.Valid() && Checked(image.Value())
    modifies image, image.Buffers()
    ensures image.Valid()
    ensures var r := Pipeline.EmitUe(old(image.Value()), strip);
            && (file.Some? ==> r == Some((image.Value(), file.value)) && |file.value| < TWO_32)
            && (file.None? ==> r.None? || Oversized(|r.value.1|))
  {
    hide Checked, Emittable, Prepared, FileBytes, Seen;
    PreparedEmittable(image.Value(), strip);
    var ok, subtrahend := PrepareUe(image, strip);
    if !ok {
      return None;
    }
    var buffer := new Buffer();
    ok := EmitUeFile(buffer, image.Value(), subtrahend);
    file := if ok then Some(buffer.Contents()) else None;
  }

  // ---------------------------------------------------------------- ToolImageCompare

  method CompareNames(dest: Option<seq<byte>>, source: Option<seq<byte>>) returns (same: bool)
    ensures same <==> NamesAgree(dest, source)
  {
    if dest.None? {
      return true;
    }
    if source.None? {
      return false;
    }
    var i := 0;
    while i < |dest.value| && i < |source.value|
      invariant 0 <= i <= |dest.value| && i <= |source.value|
      invariant forall k :: 0 <= k < i ==> dest.value[k] == source.value[k]
    {
      if dest.value[i] != source.value[i] {
        return false;
      }
      i := i + 1;
    }
    same := true;
  }

  method CompareImages(dest: Image, source: Image) returns (same: bool)
    ensures same <==> Compare(dest, source)
  {
    hide NamesAgree;
    if dest.header != source.header || dest.alignment != source.alignment || |dest.segments| != |source.segments| {
      return false;
    }
    var i := 0;
    while i < |dest.segments|
      invariant 0 <= i <= |dest.segments|
      invariant forall k :: 0 <= k < i ==> SegmentsAgree(dest.segments[k], source.segments[k])
    {
      var d, s := dest.segments[i], source.segments[i];
      if d.address != s.address || |d.data| != |s.data| || d.read != s.read || d.write != s.write || d.execute != s.execute {
        assert !SegmentsAgree(d, s);
        return false;
      }
      same := CompareNames(d.name, s.name);
      if !same || d.data != s.data {
        assert !SegmentsAgree(d, s);
        return false;
      }
      i := i + 1;
    }
    same := dest.relocsStripped == source.relocsStripped && dest.relocs == source.relocs
            && dest.hiiData == source.hiiData && dest.symbolsPath == source.symbolsPath;
  }

  // ---------------------------------------------------------------- ToolImageEmit

  /** The library's qsort is not part of this model; any sort with this contract takes its place. */
  method SortRelocs(relocs: seq<Reloc>) returns (sorted: seq<Reloc>)
    ensures SortedFrom(relocs, sorted)
  {
    hide SortedFrom;
    sorted := [];
    var i := 0;
    NothingToSort(relocs);
    while i < |relocs|
      invariant 0 <= i <= |relocs| && SortedFrom(relocs[..i], sorted)
    {
      var k := |sorted|;
      while k > 0 && sorted[k - 1].target > relocs[i].target
        invariant 0 <= k <= |sorted|
        invariant k < |sorted| ==> relocs[i].target < sorted[k].target
      {
        k := k - 1;
      }
      InsertSorted(relocs[..i], sorted, k, relocs[i]);
      assert relocs[..i + 1] == relocs[..i] + [relocs[i]];
      sorted := sorted[..k] + [relocs[i]] + sorted[k..];
      i := i + 1;
    }
    assert relocs[..i] == relocs;
  }

  lemma NothingToSort(relocs: seq<Reloc>)
    ensures SortedFrom(relocs[..0], [])
  {
  }

  lemma InsertByTarget(s: seq<Reloc>, k: nat, r: Reloc)
    requires ByTarget(s) && k <= |s|
    requires (k > 0 ==> s[k - 1].target <= r.target) && (k < |s| ==> r.target < s[k].target)
    ensures ByTarget(s[..k] + [r] + s[k..])
  {
    var t := s[..k] + [r] + s[k..];
    forall i, j | 0 <= i < j < |t| ensures t[i].target <= t[j].target {
      assert t[i] == if i < k then s[i] else if i == k then r else s[i - 1];
      assert t[j] == if j < k then s[j] else if j == k then r else s[j - 1];
    }
  }

  lemma InsertSorted(relocs: seq<Reloc>, s: seq<Reloc>, k: nat, r: Reloc)
    requires SortedFrom(relocs, s) && k <= |s|
    requires (k > 0 ==> s[k - 1].target <= r.target) && (k < |s| ==> r.target < s[k].target)
    ensures SortedFrom(relocs + [r], s[..k] + [r] + s[k..])
  {
    hide ByTarget;
    InsertByTarget(s, k, r);
    assert s == s[..k] + s[k..];
  }

  /** ValidateOutputFile: scan the file, check the image it holds and compare it with the emitted one. */
  method ValidateOutput(file: seq<byte>, source: Image) returns (ok: bool)
    ensures ok <==>
              && ScanUe(file).Some? && |ScanUe(file).value.relocs| <= MAX_RELOCS
              && Checked(ScanUe(file).value) && Compare(ScanUe(file).value, source)
  {
    hide Checked, ScanUe, Compare, Seen;
    var image := ScanUeFile(file);
    if image == null {
      return false;
    }
    ok := image.Check();
    if !ok {
      return;
    }
    ok := CompareImages(image.Value(), source);
  }

  /** The optional relocation and the fixed-address flag. */
  method Place(image: ToolImage, o: Options) returns (ok: bool)
    requires image.Valid() && Checked(image.Value())
    modifies image`header, image.Buffers()
    ensures ok <==> Moved(old(image.Value()), o).Some?
    ensures ok ==> image.Value() == Moved(old(image.Value()), o).value
  {
    hide Checked, Relocation.Relocate, Seen;
    CheckedFirst(image.Value());
    ok := true;
    if o.base.Some? {
      ok := image.Relocate(o.base.value, 0);
      if !ok {
        return;
      }
    }
    if o.fixedAddress {
      image.header := image.header.(fixedAddress := true);
    }
  }

  /** Everything before emission; `relocs` is the order the sort chose. */
  method Prepare(image: ToolImage, o: Options) returns (ok: bool, ghost relocs: seq<Reloc>)
    requires image.Valid()
    modifies image`header, image`relocs, image.Buffers()
    ensures SortedFrom(old(image.relocs), relocs)
    ensures var r := Ready(old(image.Value()).(relocs := relocs), o);
            (ok <==> r.Some?) && (ok ==> image.Value() == r.value)
  {
    hide Checked, Seen, Moved, SortedFrom;
    if o.subsystem.Some? {
      image.header := image.header.(subsystem := o.subsystem.value);
    }
    image.relocs := SortRelocs(image.relocs);
    relocs := image.relocs;
    ok := image.Check();
    if !ok {
      return;
    }
    ok := Place(image, o);
  }

  /** The last image and file of ToolImageEmit, given the order of the relocations. */
  ghost function Outcome(img: Image, relocs: seq<Reloc>, o: Options): Option<(Image, seq<byte>)> {
    EmitImage(img.(relocs := relocs), o)
  }

  /**
   * ToolImageEmit for a UE output that is not XIP. A returned file means what the input image means. No file is
   * returned only if the image cannot be expressed, if the file outgrows the buffer, or if validation rejects a
   * subsystem or a symbols path the format cannot carry.
   */
  method Emit(image: ToolImage, o: Options) returns (file: Option<seq<byte>>, ghost relocs: seq<Reloc>)
    requires image.Valid()
    modifies image, image.Buffers()
    ensures SortedFrom(old(image.relocs), relocs)
    ensures var img := old(image.Value()).(relocs := relocs);
            var out := Outcome(old(image.Value()), relocs, o);
            var base := if o.base.Some? then o.base.value else img.header.baseAddress;
            var subsystem := if o.subsystem.Some? then o.subsystem.value else img.header.subsystem;
            && (file.Some? ==>
                  && out.Some? && out.value.1 == file.value && 10 <= subsystem <= 17 && img.symbolsPath != Some([])
                  && ScanUe(file.value).Some? && SameLayout(img, ScanUe(file.value).value)
                  && img.segments != []
                  && Reported(ScanUe(file.value).value, img, base, subsystem, img.header.fixedAddress || o.fixedAddress, o.strip)
                  && (!o.strip ==> SameMeaning(img, ScanUe(file.value).value))
                  && (o.strip ==> Checked(img) && SameData(Loaded(img, base), ScanUe(file.value).value.segments)))
            && (file.None? ==>
                  out.None? || Oversized(|out.value.1|) || !(10 <= subsystem <= 17) || img.symbolsPath == Some([]))
  {
    hide Checked, Seen, Ready, SortedFrom, SameMeaning, SameData, SameLayout, Loaded, ScanUe, Compare, Pipeline.EmitUe;
    hide Reported;
    ghost var before := image.Value();
    var ok;
    ok, relocs := Prepare(image, o);
    if !ok {
      return None, relocs;
    }
    ghost var img := before.(relocs := relocs);
    file := EmitUe(image, o.strip);
    if file.Some? {
      EmitImageCorrect(img, o);
      EmitImageFew(img, o);
      ok := ValidateOutput(file.value, image.Value());
      if !ok {
        file := None;
      }
    }
  }
}
