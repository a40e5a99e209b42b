/** Emitting a UE file from any image: preparation, emission and output validation (ToolImageEmit, ToolImageEmitUe). */
module Pipeline {
  import opened Bytes
  import opened Image
  import opened Relocation
  import opened Truncation
  import opened StripPrefix
  import opened Meaning
  import opened UeFixups
  import opened UeFormat
  import opened UeFile
  import opened UeLoad
  import opened UeEndToEnd
  import opened UeValidate

  // ---------------------------------------------------------------- names and sizes are no part of the meaning

  lemma RelabelledOne(s: seq<Segment>, t: seq<Segment>, r: Reloc, d: nat)
    requires Relabelled(s, t) && CheckedReloc(s, r)
    ensures CheckedReloc(t, r) && Relabelled(RelocateOne(s, r, d), RelocateOne(t, r, d))
  {
    hide Adjust, Store, Locate;
    RelabelledRead(s, t, r.target);
  }

  lemma {:induction false} RelabelledAll(s: seq<Segment>, t: seq<Segment>, relocs: seq<Reloc>, d: nat)
    requires Relabelled(s, t) && AllHold(s, relocs)
    ensures AllHold(t, relocs) && Relabelled(RelocateAll(s, relocs, d), RelocateAll(t, relocs, d))
    decreases |relocs|
  {
    hide RelocateOne, CheckedReloc, Relabelled, SameShape;
    RelabelledHold(s, t, relocs);
    if relocs != [] {
      assert CheckedReloc(s, relocs[0]);
      RelabelledOne(s, t, relocs[0], d);
      var u := RelocateOne(s, relocs[0], d);
      SameHold(s, u, relocs);
      RelabelledAll(u, RelocateOne(t, relocs[0], d), relocs[1..], d);
    }
  }

  /** An image with other names, sizes-in-file and header flags, but the same base, entry point, bytes and relocations. */
  ghost predicate Redressed(a: Image, b: Image) {
    && Relabelled(a.segments, b.segments)
    && a.relocs == b.relocs
    && a.header.baseAddress == b.header.baseAddress && a.header.entryPoint == b.header.entryPoint
  }

  lemma RelabelledLayout(a: Image, b: Image)
    requires Relabelled(a.segments, b.segments)
    ensures SameLayout(a, b)
  {
  }

  lemma RedressedLoads(a: Image, b: Image, x: uint64)
    requires Checked(a) && Checked(b) && Redressed(a, b)
    ensures SameData(Loaded(a, x), Loaded(b, x))
  {
    hide RelocateAll, CheckedSegment, AllHold;
    RelabelledAll(a.segments, b.segments, a.relocs, WrapSub(x, Anchor(a)));
  }

  lemma RedressedMeaning(a: Image, b: Image)
    requires Checked(a) && Checked(b) && Redressed(a, b)
    ensures SameMeaning(a, b)
  {
    hide Loaded, CheckedSegment, CheckedRelocs, SameData, SameLayout;
    RelabelledLayout(a, b);
    forall x: uint64 ensures SameData(Loaded(a, x), Loaded(b, x)) {
      RedressedLoads(a, b, x);
    }
  }

  // ---------------------------------------------------------------- ToolImageEmitUe

  function WithSizes(img: Image): (t: Image) {
    img.(segments := Truncate(img.segments, img.relocs))
  }

  lemma WithSizesChecked(img: Image)
    requires Checked(img)
    ensures Checked(WithSizes(img)) && Redressed(img, WithSizes(img))
    ensures Truncated(WithSizes(img).segments, img.relocs)
  {
    hide Truncate, Holds, UnpaddedSize;
    var t := Truncate(img.segments, img.relocs);
    TruncateHold(img.segments, img.relocs);
    TruncateTruncates(img.segments, img.relocs);
    forall i | 0 <= i < |t| ensures CheckedSegment(t, img.alignment, i) {
      assert CheckedSegment(img.segments, img.alignment, i);
    }
  }

  /** ToolImageStripRelocs. */
  function StripRelocs(img: Image): (t: Image) {
    img.(relocs := [], relocsStripped := true)
  }

  lemma StripRelocsEmittable(img: Image)
    requires Emittable(img)
    ensures Emittable(StripRelocs(img))
  {
    forall i | 0 <= i < |img.segments| ensures TruncatedSegment(img.segments[i], []) {
      assert TruncatedSegment(img.segments[i], img.relocs);
    }
  }

  /** The image ToolImageEmitUe hands to the file writer; None when the prefix cannot be stripped. */
  function Prepared(img: Image, strip: bool): (p: Option<Image>)
    requires Checked(img)
  {
    WithSizesChecked(img);
    var out := StripEmptyPrefix(WithSizes(img));
    if out.None? then None else Some(if strip then StripRelocs(out.value) else out.value)
  }

  lemma PreparedEmittable(img: Image, strip: bool)
    requires Checked(img)
    ensures Prepared(img, strip).Some? <==> !img.relocsStripped
    ensures Prepared(img, strip).Some? ==> Emittable(Prepared(img, strip).value)
  {
    hide StripEmptyPrefix, Truncate, CheckedSegments, CheckedRelocs, Truncated;
    WithSizesChecked(img);
    var t := WithSizes(img);
    StripSucceeds(t);
    if !img.relocsStripped {
      StripChecked(t);
      StripTruncated(t);
      StripRelocsEmittable(StripEmptyPrefix(t).value);
    }
  }

  /** The final image and the file, for an output that is not XIP; None is the failure result. */
  ghost function EmitUe(img: Image, strip: bool): (r: Option<(Image, seq<byte>)>)
    requires Checked(img)
  {
    PreparedEmittable(img, strip);
    var out := Prepared(img, strip);
    if out.None? then None
    else
      var file := FileBytes(out.value, img.segments[0].address);
      if file.None? then None else Some((out.value, file.value))
  }

  lemma PreparedMeaning(img: Image)
    requires Checked(img) && !img.relocsStripped
    ensures Prepared(img, false).Some? && SameMeaning(img, Prepared(img, false).value)
    ensures Prepared(img, false).value.header.baseAddress == img.header.baseAddress
    ensures Prepared(img, true) == Some(StripRelocs(Prepared(img, false).value))
  {
    hide Checked, SameMeaning, Redressed, Truncated, Truncate, StripEmptyPrefix, Shifted, RelocateAll;
    WithSizesChecked(img);
    var t := WithSizes(img);
    RedressedMeaning(img, t);
    StripPreserves(t);
    StripBase(t);
    MeaningTransitive(img, t, StripEmptyPrefix(t).value);
  }

  lemma StripBase(img: Image)
    requires Checked(img) && !img.relocsStripped
    ensures StripEmptyPrefix(img).Some? && StripEmptyPrefix(img).value.header.baseAddress == img.header.baseAddress
  {
    StripValue(img);
  }

  lemma RescannedMeaning(img: Image)
    requires Emittable(img) && HeaderFits(img) && (img.symbolsPath.Some? ==> Named(img.segments))
    ensures Checked(Rescanned(img)) && SameMeaning(img, Rescanned(img))
  {
    hide Checked, Truncated, SameMeaning, Relabelled, ScannedSegments;
    RescannedChecked(img);
    ScannedRelabelled(img.segments, img.symbolsPath.Some?);
    RedressedMeaning(img, Rescanned(img));
  }

  /** Images that compare equal mean the same: this is what output validation establishes. */
  lemma CompareMeaning(dest: Image, source: Image)
    requires Checked(dest) && Checked(source) && Compare(dest, source)
    ensures SameMeaning(source, dest)
  {
    hide Checked, SameMeaning, NamesAgree;
    assert Relabelled(source.segments, dest.segments) by {
      forall i | 0 <= i < |dest.segments|
        ensures dest.segments[i] == source.segments[i].(name := dest.segments[i].name, unpaddedSize := dest.segments[i].unpaddedSize)
      {
        assert SegmentsAgree(dest.segments[i], source.segments[i]);
      }
    }
    RedressedMeaning(source, dest);
  }

  /**
   * An emitted file, scanned again, means what the original image meant; if relocations are stripped, its bytes are
   * the original's placed at its base address.
   */
  lemma EmitUeMeaning(img: Image, strip: bool)
    requires Checked(img) && EmitUe(img, strip).Some? && |EmitUe(img, strip).value.1| < TWO_32
    ensures var scan := ScanUe(EmitUe(img, strip).value.1);
            && scan.Some? && Checked(scan.value) && SameLayout(img, scan.value)
            && (!strip ==> SameMeaning(img, scan.value))
            && (strip ==> scan.value.relocs == [] && SameData(Loaded(img, img.header.baseAddress), scan.value.segments))
  {
    hide Checked, SameMeaning, Prepared, FileBytes, ScanUe, Emittable, HeaderFits, Loaded, SameData, ScannedSegments;
    var (out, file) := EmitUe(img, strip).value;
    PreparedEmittable(img, strip);
    PreparedEmittable(img, false);
    PreparedMeaning(img);
    assert Emitted(out, img.segments[0].address, file) by { CheckedSome(img); }
    EmittedHas(out, img.segments[0].address, file);
    EmittedScans(out, img.segments[0].address, file);
    RescannedMeaning(out);
    if strip {
      StrippedBytes(img, out, Rescanned(out));
    } else {
      MeaningTransitive(img, out, Rescanned(out));
      MeaningLayout(img, Rescanned(out));
    }
  }

  lemma CheckedSome(img: Image)
    requires Checked(img)
    ensures img.segments != []
  {
  }

  lemma MeaningLayout(a: Image, b: Image)
    requires SameMeaning(a, b)
    ensures SameLayout(a, b)
  {
  }

  lemma StrippedBytes(img: Image, out: Image, scan: Image)
    requires Checked(img) && Prepared(img, false).Some? && Emittable(Prepared(img, false).value)
    requires SameMeaning(img, Prepared(img, false).value)
    requires Prepared(img, false).value.header.baseAddress == img.header.baseAddress
    requires out == StripRelocs(Prepared(img, false).value) && SameMeaning(out, scan) && scan.relocs == []
    ensures SameLayout(img, scan) && SameData(Loaded(img, img.header.baseAddress), scan.segments)
  {
    hide Prepared, CheckedSegment, Truncated;
    var b, whole := img.header.baseAddress, Prepared(img, false).value;
    assert SameData(Loaded(img, b), Loaded(whole, b));
    RelocateAllZero(whole.segments, whole.relocs);
    assert SameData(Loaded(out, b), Loaded(scan, b));
  }

  // ---------------------------------------------------------------- canonical order (ToolImageSortRelocs)

  /** What qsort promises with ToolImageRelocCompare. */
  ghost predicate SortedFrom(relocs: seq<Reloc>, sorted: seq<Reloc>) {
    multiset(sorted) == multiset(relocs) && ByTarget(sorted)
  }

  ghost predicate ByTarget(relocs: seq<Reloc>) {
    forall i, j :: 0 <= i < j < |relocs| ==> relocs[i].target <= relocs[j].target
  }

  ghost predicate StrictlyByTarget(relocs: seq<Reloc>) {
    forall i, j :: 0 <= i < j < |relocs| ==> relocs[i].target < relocs[j].target
  }

  lemma SortedTail(s: seq<Reloc>)
    requires s != []
    ensures ByTarget(s) ==> ByTarget(s[1..])
    ensures StrictlyByTarget(s) ==> StrictlyByTarget(s[1..])
    ensures multiset(s[1..]) == multiset(s) - multiset{s[0]}
  {
    assert s == [s[0]] + s[1..];
  }

  lemma SortedFirst(a: seq<Reloc>, b: seq<Reloc>)
    requires SortedFrom(a, b) && StrictlyByTarget(a) && a != []
    ensures b != [] && a[0] == b[0]
  {
    assert a[0] in multiset(b);
    assert b[0] in multiset(a);
    var k, l :| 0 <= k < |a| && a[k] == b[0] && 0 <= l < |b| && b[l] == a[0];
  }

  lemma {:induction false} SortedUnique(a: seq<Reloc>, b: seq<Reloc>)
    requires SortedFrom(a, b) && StrictlyByTarget(a)
    ensures a == b
    decreases |a|
  {
    hide ByTarget, StrictlyByTarget;
    if a == [] {
      assert |multiset(b)| == 0;
    } else {
      SortedFirst(a, b);
      SortedTail(a);
      SortedTail(b);
      SortedUnique(a[1..], b[1..]);
      assert a == [a[0]] + a[1..] && b == [b[0]] + b[1..];
    }
  }

  /** The checker accepts at most one order of the relocations, whatever the sort does with equal targets. */
  lemma CanonicalOrder(segs: seq<Segment>, relocs: seq<Reloc>, a: seq<Reloc>, b: seq<Reloc>)
    requires SortedFrom(relocs, a) && SortedFrom(relocs, b) && CheckedRelocs(segs, a)
    ensures a == b
  {
    forall i, j | 0 <= i < j < |a| ensures a[i].target < a[j].target {
      assert CheckedReloc(segs, a[i]) && a[i].End() <= a[j].target;
    }
    SortedUnique(a, b);
  }

  // ---------------------------------------------------------------- ToolImageEmit

  datatype Options = Options(subsystem: Option<uint16>, base: Option<uint64>, strip: bool, fixedAddress: bool)

  function WithSubsystem(img: Image, o: Options): Image {
    if o.subsystem.Some? then img.(header := img.header.(subsystem := o.subsystem.value)) else img
  }

  function WithFixed(img: Image, o: Options): Image {
    if o.fixedAddress then img.(header := img.header.(fixedAddress := true)) else img
  }

  /** The optional relocation and the fixed-address flag. */
  function Moved(img: Image, o: Options): (r: Option<Image>)
    requires Checked(img)
    ensures r.Some? ==> Checked(r.value)
  {
    if o.base.None? then Some(WithFixed(img, o))
    else
      RelocateChecked(img, o.base.value);
      var b := Relocate(img, o.base.value, 0);
      if b.None? then None else Some(WithFixed(b.value, o))
  }

  /** The image after the checks and changes that come before emission, from one whose relocations are sorted. */
  function Ready(img: Image, o: Options): (r: Option<Image>)
    ensures r.Some? ==> Checked(r.value)
  {
    var a := WithSubsystem(img, o);
    if !Checked(a) then None else Moved(a, o)
  }

  ghost function EmitImage(img: Image, o: Options): (r: Option<(Image, seq<byte>)>) {
    var r := Ready(img, o);
    if r.None? then None else EmitUe(r.value, o.strip)
  }

  /** The result does not depend on how the sort orders equal targets, nor on the order of the input. */
  lemma EmitImageAnyOrder(img: Image, relocs: seq<Reloc>, a: seq<Reloc>, b: seq<Reloc>, o: Options)
    requires SortedFrom(relocs, a) && SortedFrom(relocs, b)
    ensures EmitImage(img.(relocs := a), o) == EmitImage(img.(relocs := b), o)
  {
    hide EmitUe, CheckedSegments, CheckedRelocs, Relocate, SortedFrom;
    if Checked(WithSubsystem(img.(relocs := a), o)) {
      CanonicalOrder(img.segments, relocs, a, b);
    } else if Checked(WithSubsystem(img.(relocs := b), o)) {
      CanonicalOrder(img.segments, relocs, b, a);
    }
  }

  lemma ReadyMeaning(img: Image, o: Options)
    requires Ready(img, o).Some?
    ensures var r := Ready(img, o).value;
            && SameMeaning(img, r)
            && r.header.baseAddress == (if o.base.Some? then o.base.value else img.header.baseAddress)
            && r.header.subsystem == (if o.subsystem.Some? then o.subsystem.value else img.header.subsystem)
            && r.header.fixedAddress == (img.header.fixedAddress || o.fixedAddress)
            && r == img.(segments := r.segments, header := r.header) && SameShape(img.segments, r.segments)
            && r.header.machine == img.header.machine && r.header.entryPoint == img.header.entryPoint
  {
    hide CheckedSegments, AllHold, Ordered, SameMeaning, Relocate, RelocateAll, Relabelled;
    var a := WithSubsystem(img, o);
    assert Checked(img) && Checked(a);
    SameSegments(img.segments);
    RedressedMeaning(img, a);
    if o.base.None? {
      RedressedMeaning(a, WithFixed(a, o));
      MeaningTransitive(img, a, WithFixed(a, o));
    } else {
      RelocateMeaning(a, o.base.value);
      RelocateValue(a, o.base.value, 0);
      var b := Relocate(a, o.base.value, 0).value;
      SameSegments(b.segments);
      RedressedMeaning(b, WithFixed(b, o));
      MeaningTransitive(a, b, WithFixed(b, o));
      MeaningTransitive(img, a, WithFixed(b, o));
    }
  }

  lemma SameSegments(segs: seq<Segment>)
    ensures Relabelled(segs, segs)
  {
  }

  /** No 64-bit relocated word needs more than the 48 bits a chained fixup leaves for the value. */
  ghost predicate Chainable(segs: seq<Segment>, relocs: seq<Reloc>) {
    forall k :: 0 <= k < |relocs| ==> ChainableWord(segs, relocs[k])
  }

  ghost predicate ChainableWord(segs: seq<Segment>, r: Reloc) {
    r.ty == REL_DIR64 ==> Holds(segs, r.target, 8) && ReadWord(segs, r.target, 8) < TWO_48
  }

  lemma ChainableSnoc(segs: seq<Segment>, relocs: seq<Reloc>)
    requires relocs != []
    ensures var n := |relocs| - 1;
            Chainable(segs, relocs) <==> Chainable(segs, relocs[..n]) && ChainableWord(segs, relocs[n])
  {
    hide ChainableWord;
    var n := |relocs| - 1;
    assert relocs == relocs[..n] + [relocs[n]];
  }

  lemma NextSucceeds(prev: Option<Fixup>, r: Reloc, value: nat, chaining: bool)
    requires prev.Some? ==> prev.value.reloc.End() <= r.target
    ensures Next(prev, r, value, chaining).Some? <==> (chaining && r.ty == REL_DIR64 ==> value < TWO_48)
  {
    hide Fits32, Fits64;
    Fits64Iff(value);
  }

  /** The relocations can be emitted exactly when no chain has to hold a value of more than 48 bits. */
  lemma {:induction false} PlanSucceeds(segs: seq<Segment>, relocs: seq<Reloc>, chaining: bool)
    requires AllHold(segs, relocs) && Ordered(relocs)
    ensures Plan(segs, relocs, chaining).Some? <==> (chaining ==> Chainable(segs, relocs))
    decreases |relocs|
  {
    hide Holds, ReadWord, Next, Chainable;
    if relocs == [] {
      NothingToChain(segs);
    } else {
      var n := |relocs| - 1;
      PlanSucceeds(segs, relocs[..n], chaining);
      assert CheckedReloc(segs, relocs[n]);
      ChainableSnoc(segs, relocs);
      var p := Plan(segs, relocs[..n], chaining);
      if p.Some? {
        NextSucceeds(Prev(p.value, n), relocs[n], ReadWord(segs, relocs[n].target, RelocSize(relocs[n].ty)), chaining);
      }
    }
  }

  lemma NothingToChain(segs: seq<Segment>)
    ensures Chainable(segs, [])
  {
  }

  // ---------------------------------------------------------------- when emission succeeds

  /** The restrictions of the UE format, on the image as it is given to the emitter. */
  ghost predicate Expressible(img: Image)
    requires Checked(img)
  {
    && |img.segments| <= 32 && img.hiiData == []
    && 0x1000 <= img.alignment <= 0x800_0000
    && img.header.machine in {0x014C, 0x8664, 0x01C2, 0xAA64, 0x5032, 0x5064, 0x5128}
    && (img.header.subsystem - 10) % 0x100 < 8
    && (forall i :: 0 <= i < |img.segments| ==> img.segments[i].read || img.segments[i].execute)
    && (img.symbolsPath.Some? ==>
          && img.segments[0].address / img.alignment % 0x100 <= 3
          && forall i :: 0 <= i < |img.segments| ==> img.segments[i].name.Some?)
  }

  /** The checks of the emitter amount to them. */
  lemma ExpressibleFits(img: Image)
    requires Checked(img)
    ensures Expressible(img) <==>
              && HeaderFits(img)
              && (img.symbolsPath.Some? ==> img.segments[0].address / img.alignment % 0x100 <= 3 && Named(img.segments))
  {
    hide Exponent, IsPow2, CheckedRelocs, UeMachine;
    ExponentRange(img.alignment);
    forall i | 0 <= i < |img.segments|
      ensures Permissions(img.segments[i]).Some? <==> img.segments[i].read || img.segments[i].execute
    {
      assert CheckedSegment(img.segments, img.alignment, i);
    }
  }

  lemma ExponentRange(a: nat)
    requires IsPow2(a)
    ensures 12 <= Exponent(a) <= 27 <==> 0x1000 <= a <= 0x800_0000
  {
    var e := Exponent(a);
    Pow2Values();
    if e < 12 {
      Pow2Mono(e, 11);
    } else if e <= 27 {
      Pow2Mono(12, e);
      Pow2Mono(e, 27);
    } else {
      Pow2Mono(28, e);
    }
    assert Pow2(12) == 2 * Pow2(11) && Pow2(28) == 2 * Pow2(27);
  }

  /** Every 64-bit relocated word, once the empty prefix is gone, fits into 48 bits. */
  ghost predicate ShortWords(segs: seq<Segment>, relocs: seq<Reloc>, d: int) {
    forall k :: 0 <= k < |relocs| && relocs[k].ty == REL_DIR64 ==> ShortWord(segs, relocs[k], d)
  }

  /** The word at r, less d, fits into 48 bits. */
  ghost predicate ShortWord(segs: seq<Segment>, r: Reloc, d: int) {
    Holds(segs, r.target, 8) && (ReadWord(segs, r.target, 8) - d) % TWO_64 < TWO_48
  }

  lemma WrapMod(x: int)
    requires -TWO_64 <= x < 2 * TWO_64
    ensures x % TWO_64 == if x < 0 then x + TWO_64 else if x < TWO_64 then x else x - TWO_64
  {
  }

  lemma AdjustDown(word: nat, s: uint64)
    requires word < TWO_64
    ensures Adjust(word, WrapSub(0, s), 8) == (word - s) % TWO_64
  {
    hide Pow256;
    Pow256Values();
    var down := WrapSub(0, s);
    WrapMod(down);
    WrapMod(word + down);
    WrapMod(word - s);
  }

  /** What preparation leaves alone, as far as the format's restrictions go. */
  ghost predicate SameRestrictions(a: Image, b: Image) {
    && a.alignment == b.alignment && a.hiiData == b.hiiData && a.symbolsPath == b.symbolsPath
    && a.header == b.header.(entryPoint := a.header.entryPoint)
    && |a.segments| == |b.segments|
    && forall i :: 0 <= i < |a.segments| ==>
         a.segments[i].name == b.segments[i].name && Permissions(a.segments[i]) == Permissions(b.segments[i])
  }

  lemma RestrictionsMatter(a: Image, b: Image, subtrahend: uint32)
    requires SameRestrictions(a, b) && Checked(a) && Checked(b)
    ensures HeaderFits(a) == HeaderFits(b) && Named(a.segments) == Named(b.segments)
    ensures DebugTable(a, subtrahend).Some? ==
            (b.symbolsPath.Some? ==> subtrahend / b.alignment % 0x100 <= 3 && Named(b.segments))
  {
    hide NameFields, CheckedSegment, CheckedRelocs, Exponent, UeMachine, Permissions;
  }

  lemma PreparedRestrictions(img: Image)
    requires Checked(img) && !img.relocsStripped
    ensures Prepared(img, false).Some?
    ensures SameRestrictions(Prepared(img, false).value, img)
    ensures SameRestrictions(StripRelocs(Prepared(img, false).value), img)
  {
    hide Truncate, RelocateAll, CheckedSegments, CheckedRelocs, StripEmptyPrefix, UnpaddedSize, Truncated;
    WithSizesChecked(img);
    StripValue(WithSizes(img));
  }

  lemma PreparedWord(img: Image, k: nat)
    requires Checked(img) && !img.relocsStripped && k < |img.relocs|
    ensures Prepared(img, false).Some?
    ensures var out := Prepared(img, false).value;
            && |out.relocs| == |img.relocs|
            && out.relocs[k].ty == img.relocs[k].ty
            && (img.relocs[k].ty == REL_DIR64 ==>
                  (ChainableWord(out.segments, out.relocs[k])
                   <==> ShortWord(img.segments, img.relocs[k], img.segments[0].address)))
  {
    hide Truncate, RelocateAll, CheckedSegment, StripEmptyPrefix, UnpaddedSize, Truncated, Adjust, Holds, ReadWord;
    hide Ordered;
    WithSizesChecked(img);
    var t, r := WithSizes(img), img.relocs[k];
    StripWord(t, k);
    StripTypes(t, k);
    RelabelledRead(img.segments, t.segments, r.target);
    assert CheckedReloc(img.segments, r);
    if r.ty == REL_DIR64 {
      Pow256Values();
      AdjustDown(ReadWord(img.segments, r.target, 8), img.segments[0].address);
    }
  }

  lemma StripTypes(img: Image, k: nat)
    requires Checked(img) && !img.relocsStripped && k < |img.relocs|
    ensures StripEmptyPrefix(img).Some? && |StripEmptyPrefix(img).value.relocs| == |img.relocs|
    ensures StripEmptyPrefix(img).value.relocs[k].ty == img.relocs[k].ty
  {
    hide RelocateAll, CheckedSegment, StripEmptyPrefix, AllHold, Ordered;
    StripValue(img);
  }

  lemma PreparedChainable(img: Image)
    requires Checked(img) && !img.relocsStripped
    ensures Prepared(img, false).Some?
    ensures var out := Prepared(img, false).value;
            Chainable(out.segments, out.relocs) <==> ShortWords(img.segments, img.relocs, img.segments[0].address)
  {
    hide Prepared, ChainableWord, ShortWord, Checked;
    CheckedSome(img);
    PreparedEmittable(img, false);
    var out := Prepared(img, false).value;
    PreparedCount(img);
    forall k | 0 <= k < |img.relocs|
      ensures ChainableWord(out.segments, out.relocs[k])
              <==> (img.relocs[k].ty == REL_DIR64 ==> ShortWord(img.segments, img.relocs[k], img.segments[0].address))
    {
      PreparedWord(img, k);
      OtherTypes(out.segments, out.relocs[k]);
    }
  }

  lemma PreparedCount(img: Image)
    requires Checked(img) && !img.relocsStripped
    ensures Prepared(img, false).Some? && |Prepared(img, false).value.relocs| == |img.relocs|
  {
    WithSizesChecked(img);
    StripValue(WithSizes(img));
  }

  lemma OtherTypes(segs: seq<Segment>, r: Reloc)
    ensures r.ty != REL_DIR64 ==> ChainableWord(segs, r)
  {
  }

  /** Emission succeeds exactly on the images the UE format can express. */
  lemma EmitUeSucceeds(img: Image, strip: bool)
    requires Checked(img)
    ensures EmitUe(img, strip).Some? <==>
              && !img.relocsStripped && Expressible(img)
              && (!strip && img.header.baseAddress == 0 && !img.header.fixedAddress ==>
                    ShortWords(img.segments, img.relocs, img.segments[0].address))
  {
    hide Prepared, Checked, DebugTable, HeaderFits, Named, Plan, ShortWords, Chainable, Truncated;
    hide SameMeaning, Expressible;
    ExpressibleFits(img);
    CheckedSome(img);
    PreparedEmittable(img, strip);
    if !img.relocsStripped {
      PreparedEmittable(img, false);
      PreparedMeaning(img);
      PreparedRestrictions(img);
      PreparedChainable(img);
      var whole, out := Prepared(img, false).value, Prepared(img, strip).value;
      RestrictionsMatter(out, img, img.segments[0].address);
      FixupsSucceed(out);
      if strip { NothingToChain(out.segments); }
    }
  }

  lemma FixupsSucceed(img: Image)
    requires Checked(img)
    ensures Fixups(img).Some? <==> (Chaining(img.header) ==> Chainable(img.segments, img.relocs))
  {
    PlanSucceeds(img.segments, img.relocs, Chaining(img.header));
  }

  // ---------------------------------------------------------------- what a file reports about its image

  /** The first seven bytes of a name, up to a zero; a file without a debug table has no names. */
  ghost predicate NameReported(name: Option<seq<byte>>, source: Option<seq<byte>>, named: bool) {
    if !named then name.None?
    else
      && name.Some? && source.Some? && name.value <= source.value && 0 !in name.value
      && (|name.value| == 7 || name.value == source.value || source.value[|name.value|] == 0)
  }

  /**
   * What a scan finds, field by field: addresses are relative to the first segment, the subsystem loses its upper bits,
   * names are cut off and an empty path is dropped.
   */
  ghost predicate Reported(scan: Image, img: Image, base: uint64, subsystem: uint16, fixed: bool, strip: bool)
    requires img.segments != []
  {
    var first := img.segments[0].address;
    && scan.header.baseAddress == base
    && scan.header.entryPoint == img.header.entryPoint - first
    && scan.header.machine == img.header.machine
    && scan.header.subsystem == (subsystem - 10) % 0x100 + 10
    && scan.header.fixedAddress == fixed
    && scan.alignment == img.alignment
    && scan.hiiData == []
    && scan.symbolsPath == (if img.symbolsPath == Some([]) then None else img.symbolsPath)
    && scan.relocsStripped == strip
    && |scan.relocs| == (if strip then 0 else |img.relocs|)
    && (forall k :: 0 <= k < |scan.relocs| ==>
          scan.relocs[k].ty == img.relocs[k].ty && scan.relocs[k].target == img.relocs[k].target - first)
    && |scan.segments| == |img.segments|
    && (forall i :: 0 <= i < |scan.segments| ==>
          && scan.segments[i].address == img.segments[i].address - first
          && NameReported(scan.segments[i].name, img.segments[i].name, img.symbolsPath.Some?))
  }

  lemma FieldReported(name: seq<byte>)
    ensures NameReported(Some(CString(NameField(name))), Some(name), true)
  {
    hide CString;
    var f, m := NameField(name), if |name| < 7 then |name| else 7;
    var c := CString(f);
    CStringZero(f);
    assert c <= f && f[..m] == name[..m];
    forall j | 0 <= j < |c| ensures f[j] != 0 {
      assert c[j] == f[j] && c[j] in c;
    }
    assert f[m] == 0;
    assert c == name[..m][..|c|];
  }

  lemma PreparedFields(img: Image, strip: bool)
    requires Checked(img) && !img.relocsStripped
    ensures Prepared(img, strip).Some?
    ensures var out, s := Prepared(img, strip).value, img.segments[0].address;
            && out.header == img.header.(entryPoint := img.header.entryPoint - s)
            && out.alignment == img.alignment && out.symbolsPath == img.symbolsPath && out.relocsStripped == strip
            && out.relocs == (if strip then [] else ShiftRelocs(img.relocs, s))
            && |out.segments| == |img.segments|
            && forall i :: 0 <= i < |out.segments| ==>
                 && out.segments[i].address == img.segments[i].address - s
                 && out.segments[i].name == img.segments[i].name
  {
    hide Truncate, RelocateAll, CheckedSegment, StripEmptyPrefix, UnpaddedSize, Truncated, AllHold, Ordered;
    WithSizesChecked(img);
    var t := WithSizes(img);
    StripValue(t);
    AboveFirst(t);
  }

  /** A scan of the emitted file reports the fields of the image it was made from. */
  lemma EmitUeReports(img: Image, strip: bool)
    requires Checked(img) && EmitUe(img, strip).Some? && |EmitUe(img, strip).value.1| < TWO_32
    ensures var h, file := img.header, EmitUe(img, strip).value.1;
            ScanUe(file).Some? && Reported(ScanUe(file).value, img, h.baseAddress, h.subsystem, h.fixedAddress, strip)
  {
    hide Checked, Prepared, FileBytes, ScanUe, HeaderFits, Truncated, NameReported, CString, NameField, ShiftRelocs;
    CheckedSome(img);
    var (out, file) := EmitUe(img, strip).value;
    PreparedEmittable(img, strip);
    PreparedFields(img, strip);
    EmittedHas(out, img.segments[0].address, file);
    EmittedScans(out, img.segments[0].address, file);
    ShiftedTargets(img);
    if img.symbolsPath.Some? {
      forall i | 0 <= i < |img.segments|
        ensures NameReported(ScanUe(file).value.segments[i].name, img.segments[i].name, true)
      {
        FieldReported(img.segments[i].name.value);
      }
    } else {
      NoNameReported();
    }
  }

  lemma NoNameReported()
    ensures forall s :: NameReported(None, s, false)
  {
  }

  lemma ShiftedTargets(img: Image)
    requires Checked(img)
    ensures var t := ShiftRelocs(img.relocs, img.segments[0].address);
            |t| == |img.relocs|
            && forall k :: 0 <= k < |t| ==>
                 t[k].ty == img.relocs[k].ty && t[k].target == img.relocs[k].target - img.segments[0].address
  {
    hide CheckedSegments, CheckedRelocs;
    AboveFirst(img);
  }

  // ---------------------------------------------------------------- the whole tool

  /**
   * ToolImageEmit on any image whose relocations are sorted. The file it writes scans to a checked image, passes the
   * comparison exactly when its subsystem is a UEFI one and its symbols path is not empty, and means what the input
   * means; with relocations stripped, it holds the bytes of the input placed at the chosen base address.
   */
  lemma EmitImageCorrect(img: Image, o: Options)
    requires EmitImage(img, o).Some? && |EmitImage(img, o).value.1| < TWO_32
    ensures var (out, file) := EmitImage(img, o).value;
            var scan := ScanUe(file);
            var base := if o.base.Some? then o.base.value else img.header.baseAddress;
            var subsystem := if o.subsystem.Some? then o.subsystem.value else img.header.subsystem;
            && Checked(img) && img.segments != [] && scan.Some? && Checked(scan.value) && SameLayout(img, scan.value)
            && (Compare(scan.value, out) <==> 10 <= subsystem <= 17 && img.symbolsPath != Some([]))
            && (!o.strip ==> SameMeaning(img, scan.value))
            && (o.strip ==> SameData(Loaded(img, base), scan.value.segments))
            && Reported(scan.value, img, base, subsystem, img.header.fixedAddress || o.fixedAddress, o.strip)
  {
    hide Checked, SameMeaning, Prepared, FileBytes, ScanUe, Emittable, HeaderFits, Loaded, SameData, Ready, Compare;
    hide SameLayout, Emitted, SameRestrictions, Reported;
    var r := Ready(img, o).value;
    var (out, file) := EmitUe(r, o.strip).value;
    ReadyMeaning(img, o);
    EmitUeMeaning(r, o.strip);
    EmitUeCompares(r, o.strip);
    EmitUeReports(r, o.strip);
    MeaningParts(img, r);
    CheckedSome(r);
    ReportedAs(ScanUe(file).value, r, img, o.strip);
    MeaningLayout(img, r);
    LayoutTransitive(img, r, ScanUe(file).value);
    if o.strip {
      assert SameData(Loaded(img, r.header.baseAddress), Loaded(r, r.header.baseAddress));
      DataTransitive(Loaded(img, r.header.baseAddress), Loaded(r, r.header.baseAddress), ScanUe(file).value.segments);
    } else {
      MeaningTransitive(img, r, ScanUe(file).value);
    }
  }

  lemma ReportedAs(scan: Image, r: Image, img: Image, strip: bool)
    requires r.segments != [] && r == img.(segments := r.segments, header := r.header) && SameShape(img.segments, r.segments)
    requires r.header.machine == img.header.machine && r.header.entryPoint == img.header.entryPoint
    requires Reported(scan, r, r.header.baseAddress, r.header.subsystem, r.header.fixedAddress, strip)
    ensures img.segments != []
    ensures Reported(scan, img, r.header.baseAddress, r.header.subsystem, r.header.fixedAddress, strip)
  {
    hide NameReported;
  }

  lemma MeaningParts(a: Image, b: Image)
    requires SameMeaning(a, b)
    ensures Checked(a) && Checked(b) && forall x: uint64 :: SameData(Loaded(a, x), Loaded(b, x))
  {
  }

  lemma LayoutTransitive(a: Image, b: Image, c: Image)
    requires SameLayout(a, b) && SameLayout(b, c)
    ensures SameLayout(a, c)
  {
  }

  lemma DataTransitive(s: seq<Segment>, t: seq<Segment>, u: seq<Segment>)
    requires SameData(s, t) && SameData(t, u)
    ensures SameData(s, u)
  {
  }

  lemma EmitUeCompares(img: Image, strip: bool)
    requires Checked(img) && EmitUe(img, strip).Some? && |EmitUe(img, strip).value.1| < TWO_32
    ensures var (out, file) := EmitUe(img, strip).value;
            && ScanUe(file).Some?
            && (Compare(ScanUe(file).value, out)
                <==> 10 <= img.header.subsystem <= 17 && img.symbolsPath != Some([]))
  {
    hide Checked, Prepared, FileBytes, ScanUe, HeaderFits, Compare, Truncated;
    var (out, file) := EmitUe(img, strip).value;
    PreparedEmittable(img, strip);
    PreparedMeaning(img);
    PreparedRestrictions(img);
    CheckedSome(img);
    EmittedValidates(out, img.segments[0].address, file);
  }

  lemma RelocatedWord(img: Image, base: uint64, k: nat, d: int)
    requires Checked(img) && Relocate(img, base, 0).Some? && k < |img.relocs| && img.relocs[k].ty == REL_DIR64
    ensures ShortWord(Relocate(img, base, 0).value.segments, img.relocs[k], d)
            <==> ShortWord(img.segments, img.relocs[k], d + img.header.baseAddress - base)
  {
    hide RelocateAll, CheckedSegments, Ordered, Holds, ReadWord, Relocate;
    var r, b := img.relocs[k], img.header.baseAddress;
    assert CheckedReloc(img.segments, r);
    RelocateValue(img, base, 0);
    OrderedApart(img.relocs);
    RelocateAllWord(img.segments, img.relocs, WrapSub(base, b), k);
    SameLocate(img.segments, Relocate(img, base, 0).value.segments, r.target);
    MovedDown(ReadWord(img.segments, r.target, 8), base, b, d);
  }

  lemma MovedDown(word: nat, base: uint64, b: uint64, d: int)
    requires word < TWO_64
    ensures (Adjust(word, WrapSub(base, b), 8) - d) % TWO_64 == (word - (d + b - base)) % TWO_64
  {
    Pow256Values();
  }

  lemma ReadyShort(img: Image, o: Options, d: int)
    requires Checked(img) && Ready(img, o).Some?
    ensures var r := Ready(img, o).value;
            ShortWords(r.segments, r.relocs, d)
            <==> ShortWords(img.segments, img.relocs, d + img.header.baseAddress - r.header.baseAddress)
  {
    hide CheckedSegments, CheckedHeader, AllHold, Ordered, Relocate, ShortWord;
    var a := WithSubsystem(img, o);
    if o.base.Some? {
      RelocateChecked(a, o.base.value);
      forall k | 0 <= k < |img.relocs| && img.relocs[k].ty == REL_DIR64
        ensures ShortWord(Relocate(a, o.base.value, 0).value.segments, img.relocs[k], d)
                <==> ShortWord(img.segments, img.relocs[k], d + img.header.baseAddress - o.base.value)
      {
        RelocatedWord(a, o.base.value, k, d);
      }
    }
  }

  /**
   * ToolImageEmit produces a file exactly if the image is checked, the chosen base is aligned and leaves room, the format
   * can express the image and, when fixups are chained, every 64-bit word relative to the first segment fits 48 bits.
   */
  lemma EmitImageSucceeds(img: Image, o: Options)
    ensures EmitImage(img, o).Some? <==>
              && Checked(img) && !img.relocsStripped
              && (o.base.Some? ==> o.base.value % img.alignment == 0 && o.base.value + ImageSize(img.segments) < TWO_64)
              && Expressible(if o.subsystem.None? then img else img.(header := img.header.(subsystem := o.subsystem.value)))
              && (!o.strip && !img.header.fixedAddress && !o.fixedAddress
                  && (if o.base.Some? then o.base.value else img.header.baseAddress) == 0 ==>
                    ShortWords(img.segments, img.relocs, img.segments[0].address + img.header.baseAddress))
  {
    hide EmitUe, Relocate, ShortWords, Expressible, CheckedSegments, CheckedRelocs, SameMeaning, ImageSize;
    var a := WithSubsystem(img, o);
    assert Checked(a) <==> Checked(img);
    if Checked(img) {
      PowerNotZero(img);
      if o.base.Some? {
        RelocateSucceeds(a, o.base.value);
      }
      if Ready(img, o).Some? {
        var r := Ready(img, o).value;
        ReadyMeaning(img, o);
        EmitUeSucceeds(r, o.strip);
        SameExpressible(a, r);
        ReadyShort(img, o, img.segments[0].address);
      }
    }
  }

  lemma PowerNotZero(img: Image)
    requires Checked(img)
    ensures img.alignment > 0 && img.segments != []
  {
  }

  lemma SameExpressible(a: Image, r: Image)
    requires Checked(a) && Checked(r) && SameShape(a.segments, r.segments)
    requires r == a.(segments := r.segments, header := r.header)
    requires r.header.machine == a.header.machine && r.header.subsystem == a.header.subsystem
    ensures Expressible(a) == Expressible(r) && a.segments[0].address == r.segments[0].address
  {
    hide CheckedSegment, CheckedRelocs;
  }

  /** The scanned file has few relocations for its size. */
  lemma EmitImageFew(img: Image, o: Options)
    requires EmitImage(img, o).Some? && |EmitImage(img, o).value.1| < TWO_32
    ensures var file := EmitImage(img, o).value.1;
            ScanUe(file).Some? && 4 * |ScanUe(file).value.relocs| + HEADER_SIZE + SEGMENT_HEADER_SIZE <= |file|
  {
    hide Checked, Prepared, FileBytes, ScanUe, HeaderFits, Truncated, Ready;
    var r := Ready(img, o).value;
    var (out, file) := EmitUe(r, o.strip).value;
    ReadyMeaning(img, o);
    MeaningParts(img, r);
    CheckedSome(r);
    PreparedEmittable(r, o.strip);
    EmittedScans(out, r.segments[0].address, file);
    EmittedFew(out, r.segments[0].address, file);
  }
}
