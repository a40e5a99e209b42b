/** The image as the tool holds it: segment buffers that are changed in place (Image.c, UeEmit.c). */
module ToolImages {
  import opened Bytes
  import opened Image
  import opened Relocation
  import opened Truncation
  import opened StripPrefix

  /** A segment with its buffer; ImageSize is the buffer's length. */
  datatype SegmentRef = SegmentRef(
    address: uint32,
    data: array<byte>,
    read: bool,
    write: bool,
    execute: bool,
    name: Option<seq<byte>>,
    unpaddedSize: nat
  )

  function See(r: SegmentRef): Segment
    reads r.data
  {
    Segment(r.address, r.data[..], r.read, r.write, r.execute, r.name, r.unpaddedSize)
  }

  /** The segments as values. */
  function Seen(refs: seq<SegmentRef>): (segs: seq<Segment>)
    reads set r | r in refs :: r.data
    ensures |segs| == |refs|
    ensures forall i :: 0 <= i < |refs| ==> segs[i] == See(refs[i])
  {
    if refs == [] then [] else [See(refs[0])] + Seen(refs[1..])
  }

  lemma SeenSnoc(refs: seq<SegmentRef>, r: SegmentRef)
    ensures Seen(refs + [r]) == Seen(refs) + [See(r)]
  {
  }

  // ---------------------------------------------------------------- the two passes over the unpadded sizes

  function Trimmed(segs: seq<Segment>): (t: seq<Segment>)
    ensures |t| == |segs|
    ensures forall i :: 0 <= i < |t| ==> t[i] == segs[i].(unpaddedSize := TrimmedSize(segs[i].data))
  {
    if segs == [] then [] else [segs[0].(unpaddedSize := TrimmedSize(segs[0].data))] + Trimmed(segs[1..])
  }

  function Stretch(s: Segment, relocs: seq<Reloc>): (t: Segment) {
    if s.unpaddedSize < RelocExtent(s, relocs) then s.(unpaddedSize := RelocExtent(s, relocs)) else s
  }

  function Stretched(segs: seq<Segment>, relocs: seq<Reloc>): (t: seq<Segment>)
    ensures |t| == |segs|
    ensures forall i :: 0 <= i < |t| ==> t[i] == Stretch(segs[i], relocs)
  {
    if segs == [] then [] else [Stretch(segs[0], relocs)] + Stretched(segs[1..], relocs)
  }

  /** Both passes together compute the sizes of the specification. */
  lemma PassesTruncate(segs: seq<Segment>, relocs: seq<Reloc>)
    ensures Stretched(Trimmed(segs), relocs) == Truncate(segs, relocs)
  {
    hide Trimmed, Stretched, Truncate;
    forall i | 0 <= i < |segs| ensures Stretched(Trimmed(segs), relocs)[i] == Truncate(segs, relocs)[i] {
      SameExtent(segs[i], Trimmed(segs)[i], relocs);
    }
  }

  lemma ExtentUnique(s: Segment, relocs: seq<Reloc>, e: nat)
    requires forall k :: 0 <= k < |relocs| && Inside(s, relocs[k]) ==> relocs[k].End() <= s.address + e
    requires e > 0 ==> exists k :: 0 <= k < |relocs| && Inside(s, relocs[k]) && relocs[k].End() == s.address + e
    ensures RelocExtent(s, relocs) == e
  {
  }

  /** A relocation that ends after segment i - 1 starts in or after segment i. */
  lemma StartsLater(segs: seq<Segment>, alignment: nat, r: Reloc, i: nat)
    requires CheckedSegments(segs, alignment) && CheckedReloc(segs, r) && i < |segs|
    requires i > 0 ==> r.End() > segs[i - 1].End()
    ensures segs[i].address <= r.target
  {
    var k := Locate(segs, r.target);
    if k < i - 1 {
      TilesOrdered(segs, alignment, k, i - 1);
    } else if i < k {
      TilesOrdered(segs, alignment, i, k);
    }
  }

  function Edge(segs: seq<Segment>, i: nat): nat
    requires segs != [] && i <= |segs|
  {
    if i == 0 then segs[0].address else segs[i - 1].End()
  }

  /** The first q relocations are those that end no later than the first i segments. */
  ghost predicate Walked(segs: seq<Segment>, relocs: seq<Reloc>, i: nat, q: nat)
    requires segs != [] && i <= |segs|
  {
    && q <= |relocs|
    && (forall k :: 0 <= k < q ==> relocs[k].End() <= Edge(segs, i))
    && (forall k :: q <= k < |relocs| && i > 0 ==> relocs[k].End() > Edge(segs, i))
  }

  /** The relocations from q to p, and no others, lie in segment i; the last of them reaches farthest. */
  lemma WalkedExtent(segs: seq<Segment>, alignment: nat, relocs: seq<Reloc>, i: nat, q: nat, p: nat)
    requires CheckedSegments(segs, alignment) && CheckedRelocs(segs, relocs) && i < |segs|
    requires Walked(segs, relocs, i, q) && q <= p <= |relocs|
    requires forall k :: q <= k < p ==> relocs[k].End() <= segs[i].End()
    requires p < |relocs| ==> relocs[p].End() > segs[i].End()
    ensures Walked(segs, relocs, i + 1, p)
    ensures p > q ==> segs[i].address <= relocs[p - 1].End()
    ensures RelocExtent(segs[i], relocs) == if p > q then relocs[p - 1].End() - segs[i].address else 0
  {
    hide RelocExtent, CheckedSegments, AllHold;
    var s := segs[i];
    forall k | 0 <= k < |relocs|
      ensures Inside(s, relocs[k]) <==> q <= k < p
      ensures if k < p then relocs[k].End() <= s.End() else relocs[k].End() > s.End()
    {
      WalkedInside(segs, alignment, relocs, i, q, p, k);
    }
    if p > q {
      assert forall k :: q <= k < p ==> relocs[k].End() <= relocs[p - 1].End();
      ExtentUnique(s, relocs, relocs[p - 1].End() - s.address);
    } else {
      ExtentUnique(s, relocs, 0);
    }
  }

  lemma WalkedInside(segs: seq<Segment>, alignment: nat, relocs: seq<Reloc>, i: nat, q: nat, p: nat, k: nat)
    requires CheckedSegments(segs, alignment) && CheckedRelocs(segs, relocs) && i < |segs|
    requires Walked(segs, relocs, i, q) && q <= p <= |relocs| && k < |relocs|
    requires forall k :: q <= k < p ==> relocs[k].End() <= segs[i].End()
    requires p < |relocs| ==> relocs[p].End() > segs[i].End()
    ensures Inside(segs[i], relocs[k]) <==> q <= k < p
    ensures if k < p then relocs[k].End() <= segs[i].End() else relocs[k].End() > segs[i].End()
  {
    hide CheckedSegments, CheckedReloc;
    assert CheckedReloc(segs, relocs[k]);
    Sizes(segs, alignment, relocs[k], i);
    if k >= q {
      StartsLater(segs, alignment, relocs[k], i);
    }
    if k > p {
      assert relocs[p].End() <= relocs[k].target;
    }
  }

  lemma Sizes(segs: seq<Segment>, alignment: nat, r: Reloc, i: nat)
    requires CheckedSegments(segs, alignment) && CheckedReloc(segs, r) && i < |segs|
    ensures r.target < r.End() && Edge(segs, i) == segs[i].address
  {
    assert CheckedSegment(segs, alignment, i);
  }

  lemma WalkedNothing(segs: seq<Segment>, relocs: seq<Reloc>)
    requires segs != []
    ensures Walked(segs, relocs, 0, 0)
  {
  }

  method TrimSegment(data: array<byte>) returns (size: nat)
    ensures size == TrimmedSize(data[..])
  {
    size := data.Length;
    while size > 0
      invariant 0 <= size <= data.Length
      invariant forall j :: size <= j < data.Length ==> data[j] == 0
    {
      if data[size - 1] != 0 {
        break;
      }
      size := size - 1;
    }
    TrimmedUnique(data[..], size);
  }

  class ToolImage {
    var header: Header
    var alignment: uint32
    var segments: seq<SegmentRef>
    var relocsStripped: bool
    var relocs: seq<Reloc>
    var hiiData: seq<byte>
    var symbolsPath: Option<seq<byte>>

    constructor (header: Header, alignment: uint32, segments: seq<SegmentRef>, relocsStripped: bool)
      ensures this.header == header && this.alignment == alignment && this.segments == segments
      ensures this.relocsStripped == relocsStripped && relocs == [] && hiiData == [] && symbolsPath == None
    {
      this.header, this.alignment, this.segments, this.relocsStripped := header, alignment, segments, relocsStripped;
      relocs, hiiData, symbolsPath := [], [], None;
    }

    /** No two segments share a buffer. */
    ghost predicate Valid()
      reads this
    {
      forall i, j :: 0 <= i < j < |segments| ==> segments[i].data != segments[j].data
    }

    ghost function Buffers(): set<array<byte>>
      reads this
    {
      set r | r in segments :: r.data
    }

    function Value(): Image
      reads this, set r | r in segments :: r.data
    {
      Image(header, alignment, Seen(segments), relocsStripped, relocs, hiiData, symbolsPath)
    }

    // -------------------------------------------------------------- reading

    /** ImageGetSegmentByAddress; index |segments| stands for NULL. */
    method GetSegmentByAddress(address: uint32) returns (index: nat, offset: nat, remaining: nat)
      ensures index == Locate(Value().segments, address)
      ensures index < |segments| ==>
                && offset == address - segments[index].address
                && remaining == segments[index].data.Length - offset
    {
      index, offset, remaining := 0, 0, 0;
      ghost var segs := Value().segments;
      while index < |segments|
        invariant 0 <= index <= |segments|
        invariant forall j :: 0 <= j < index ==> !InSegment(segs[j], address)
      {
        var s := segments[index];
        if s.address <= address && address < s.address + s.data.Length {
          offset := address - s.address;
          remaining := s.data.Length - offset;
          return;
        }
        index := index + 1;
      }
    }

    /** Write a word into a segment's buffer. */
    method WriteUnaligned(index: nat, offset: nat, n: nat, value: nat)
      requires Valid() && index < |segments| && offset + n <= segments[index].data.Length
      modifies segments[index].data
      ensures Value() == old(Value()).(segments :=
                SetData(old(Value()).segments, index, Store(old(segments[index].data[..]), offset, n, value)))
    {
      var data, bytes, i := segments[index].data, ToLe(value, n), 0;
      while i < n
        invariant 0 <= i <= n
        invariant forall j :: 0 <= j < data.Length ==>
                    data[j] == if offset <= j < offset + i then bytes[j - offset] else old(data[j])
      {
        data[offset + i] := bytes[i];
        i := i + 1;
      }
      SpliceIndex(old(data[..]), offset, bytes);
      assert data[..] == Store(old(data[..]), offset, n, value);
    }

    // -------------------------------------------------------------- CheckToolImage

    method CheckSegments() returns (ok: bool, imageSize: nat)
      ensures ok <==> CheckedSegments(Value().segments, alignment)
      ensures ok ==> segments != [] && imageSize == ImageSize(Value().segments)
    {
      hide IsPow2, Aligned;
      imageSize := 0;
      if !IsPow2(alignment) || |segments| == 0 || !Aligned(segments[0].address, alignment) {
        return false, 0;
      }
      ghost var segs := Value().segments;
      imageSize := segments[0].address;
      var i := 0;
      while i < |segments|
        invariant 0 <= i <= |segments|
        invariant forall k :: 0 <= k < i ==> CheckedSegment(segs, alignment, k)
        invariant imageSize == if i == 0 then segs[0].address else segs[i - 1].End()
      {
        var s := segments[i];
        if !Aligned(s.data.Length, alignment) || (s.write && s.execute) || s.address != imageSize
           || s.address + s.data.Length >= TWO_32 {
          assert !CheckedSegment(segs, alignment, i);
          return false, imageSize;
        }
        imageSize := s.address + s.data.Length;
        i := i + 1;
      }
      ok := true;
    }

    method CheckReloc(r: Reloc, size: nat) returns (ok: bool)
      requires size == RelocSize(r.ty) > 0
      ensures ok <==> CheckedReloc(Value().segments, r)
    {
      var index, offset, remaining := GetSegmentByAddress(r.target);
      ok := index < |segments| && size <= remaining;
    }

    method CheckRelocs() returns (ok: bool)
      ensures ok <==> (relocs != [] ==> !relocsStripped) && CheckedRelocs(Value().segments, relocs)
    {
      hide CheckedReloc;
      if |relocs| == 0 {
        return true;
      }
      if relocsStripped || |relocs| > MAX_UINT32 / 2 {
        return false;
      }
      ghost var segs := Value().segments;
      var minTarget, i := 0, 0;
      while i < |relocs|
        invariant 0 <= i <= |relocs|
        invariant forall k :: 0 <= k < i ==> CheckedReloc(segs, relocs[k])
        invariant forall j, k :: 0 <= j < k < i ==> relocs[j].End() <= relocs[k].target
        invariant forall j :: 0 <= j < i ==> relocs[j].End() <= minTarget
        invariant minTarget == if i == 0 then 0 else relocs[i - 1].End()
      {
        if relocs[i].target < minTarget {
          return false;
        }
        var size := RelocSize(relocs[i].ty);
        if size == 0 {
          NoSize(segs, relocs[i]);
          return false;
        }
        ok := CheckReloc(relocs[i], size);
        if !ok {
          return;
        }
        minTarget := relocs[i].target + size;
        i := i + 1;
      }
      ok := true;
    }

    /** CheckToolImage. */
    method Check() returns (ok: bool)
      ensures ok <==> Checked(Value())
    {
      hide CheckedSegments, CheckedRelocs, Aligned;
      var imageSize;
      ok, imageSize := CheckSegments();
      if !ok {
        return;
      }
      if segments[0].address > header.entryPoint || header.entryPoint > imageSize
         || !Aligned(header.baseAddress, alignment) || header.baseAddress + imageSize >= TWO_64 {
        return false;
      }
      ok := CheckRelocs();
      if !ok {
        return;
      }
      ok := symbolsPath.Some? ==> |symbolsPath.value| <= 0xFF;
    }

    // -------------------------------------------------------------- ToolImageRelocate

    method RelocateWord(r: Reloc, adjust: uint64)
      requires Valid() && CheckedReloc(Value().segments, r)
      modifies Buffers()
      ensures Value() == old(Value()).(segments := RelocateOne(old(Value().segments), r, adjust))
    {
      hide Locate, Store, FromLe, Adjust, Seen;
      var index, offset, remaining := GetSegmentByAddress(r.target);
      var n := RelocSize(r.ty);
      var word := FromLe(segments[index].data[offset..offset + n]);
      WriteUnaligned(index, offset, n, Adjust(word, adjust, n));
    }

    method RelocateWords(adjust: uint64)
      requires Valid() && AllHold(Value().segments, relocs)
      modifies Buffers()
      ensures Value() == old(Value()).(segments := RelocateAll(old(Value().segments), relocs, adjust))
    {
      hide RelocateOne, CheckedReloc, RelocateAll, SameShape, AllHold, Seen;
      ghost var before, segs := Value(), Value().segments;
      var i := 0;
      assert relocs[0..] == relocs;
      while i < |relocs|
        invariant 0 <= i <= |relocs| && AllHold(segs, relocs[i..])
        invariant Value() == before.(segments := segs)
        invariant RelocateAll(segs, relocs[i..], adjust) == RelocateAll(before.segments, relocs, adjust)
      {
        RelocateStep(segs, relocs, i, adjust);
        RelocateWord(relocs[i], adjust);
        segs, i := RelocateOne(segs, relocs[i], adjust), i + 1;
      }
      RelocateNone(segs, relocs[i..], adjust);
    }

    /** ToolImageRelocate. */
    method Relocate(base: uint64, ignorePrefix: uint32) returns (ok: bool)
      requires Valid() && CheckedSegments(Value().segments, alignment) && AllHold(Value().segments, relocs)
      modifies this`header, Buffers()
      ensures ok <==> Relocation.Relocate(old(Value()), base, ignorePrefix).Some?
      ensures Value() == if ok then Relocation.Relocate(old(Value()), base, ignorePrefix).value else old(Value())
    {
      hide Aligned, CheckedSegment, AllHold, RelocateAll, SameShape;
      if !Aligned(base, alignment) {
        return false;
      }
      var adjust := WrapSub(base, header.baseAddress);
      if adjust == 0 {
        return true;
      }
      var last := segments[|segments| - 1];
      LastFits(Value().segments, alignment);
      var imageSize := last.address + last.data.Length;
      if WrapAdd(base, imageSize) < WrapAdd(base, ignorePrefix) {
        return false;
      }
      RelocateWords(adjust);
      header := header.(baseAddress := base);
      ok := true;
    }

    // -------------------------------------------------------------- unpadded sizes

    /** ImageInitUnpaddedSize. */
    method InitUnpaddedSize()
      requires Valid()
      modifies this`segments
      ensures Valid()
      ensures Value() == old(Value()).(segments := Trimmed(old(Value().segments)))
      ensures Buffers() == old(Buffers())
    {
      hide TrimmedSize, Trimmed;
      ghost var before := Value().segments;
      var i := 0;
      while i < |segments|
        invariant 0 <= i <= |segments| == |before| && Valid()
        invariant forall k :: 0 <= k < |segments| ==>
                    segments[k] == old(segments)[k].(unpaddedSize :=
                      if k < i then TrimmedSize(before[k].data) else old(segments)[k].unpaddedSize)
        invariant |old(segments)| == |segments|
      {
        var size := TrimSegment(segments[i].data);
        segments := segments[i := segments[i].(unpaddedSize := size)];
        i := i + 1;
      }
      SameBuffers(segments, old(segments));
    }

    /** The inner loop: the relocations from q on that end inside the segment. */
    method WalkSegment(address: nat, size: nat, q: nat, ghost segs: seq<Segment>, ghost i: nat)
      returns (p: nat, hasReloc: bool, lastEnd: nat)
      requires CheckedSegments(segs, alignment) && CheckedRelocs(segs, relocs) && i < |segs|
      requires address == segs[i].address && size == |segs[i].data| && Walked(segs, relocs, i, q)
      ensures Walked(segs, relocs, i + 1, p)
      ensures hasReloc ==> address <= lastEnd
      ensures RelocExtent(segs[i], relocs) == if hasReloc then lastEnd - address else 0
    {
      hide RelocExtent, CheckedSegments, CheckedRelocs;
      p, hasReloc, lastEnd := q, false, 0;
      while p < |relocs|
        invariant q <= p <= |relocs|
        invariant forall k :: q <= k < p ==> relocs[k].End() <= segs[i].End()
        invariant hasReloc == (p > q) && (hasReloc ==> lastEnd == relocs[p - 1].End())
      {
        var end := relocs[p].target + RelocSize(relocs[p].ty);
        if end > address + size {
          break;
        }
        hasReloc, lastEnd, p := true, end, p + 1;
      }
      WalkedExtent(segs, alignment, relocs, i, q, p);
    }

    /** ToolImageEmitUePadChainedRelocs: one walk over the relocations, shared by the walk over the segments. */
    method PadChainedRelocs()
      requires Valid() && CheckedSegments(Value().segments, alignment) && CheckedRelocs(Value().segments, relocs)
      modifies this`segments
      ensures Valid()
      ensures Value() == old(Value()).(segments := Stretched(old(Value().segments), relocs))
      ensures Buffers() == old(Buffers())
    {
      hide Stretched, RelocExtent, CheckedSegment, Ordered, AllHold, Walked;
      ghost var before := Value().segments;
      WalkedNothing(before, relocs);
      var i, q := 0, 0;
      while i < |segments|
        invariant 0 <= i <= |segments| == |before| && Valid() && |old(segments)| == |segments|
        invariant Walked(before, relocs, i, q)
        invariant forall k :: 0 <= k < |segments| ==>
                    segments[k] == old(segments)[k].(unpaddedSize :=
                      if k < i then Stretch(before[k], relocs).unpaddedSize else old(segments)[k].unpaddedSize)
      {
        var s := segments[i];
        var q', hasReloc, lastEnd := WalkSegment(s.address, s.data.Length, q, before, i);
        if hasReloc && s.unpaddedSize < lastEnd - s.address {
          segments := segments[i := s.(unpaddedSize := lastEnd - s.address)];
        }
        q := q';
        i := i + 1;
      }
      SameBuffers(segments, old(segments));
    }

    // -------------------------------------------------------------- ToolImageStripEmptyPrefix

    method ShiftAddresses(subtrahend: uint32)
      requires Valid()
      modifies this`segments
      ensures Valid()
      ensures Value() == old(Value()).(segments := ShiftSegments(old(Value().segments), subtrahend))
      ensures Buffers() == old(Buffers())
    {
      hide ShiftSegments, Sub32;
      var i := 0;
      while i < |segments|
        invariant 0 <= i <= |segments| == |old(segments)| && Valid()
        invariant forall k :: 0 <= k < |segments| ==>
                    segments[k] == old(segments)[k].(address :=
                      if k < i then Sub32(old(segments)[k].address, subtrahend) else old(segments)[k].address)
      {
        segments := segments[i := segments[i].(address := Sub32(segments[i].address, subtrahend))];
        i := i + 1;
      }
      assert Value().segments == ShiftSegments(old(Value().segments), subtrahend);
      SameBuffers(segments, old(segments));
    }

    method ShiftTargets(subtrahend: uint32)
      modifies this`relocs
      ensures relocs == ShiftRelocs(old(relocs), subtrahend)
    {
      hide Sub32;
      var i := 0;
      while i < |relocs|
        invariant 0 <= i <= |relocs| == |old(relocs)|
        invariant forall k :: 0 <= k < |relocs| ==>
                    relocs[k] == old(relocs)[k].(target :=
                      if k < i then Sub32(old(relocs)[k].target, subtrahend) else old(relocs)[k].target)
      {
        relocs := relocs[i := relocs[i].(target := Sub32(relocs[i].target, subtrahend))];
        i := i + 1;
      }
    }

    /** ToolImageStripEmptyPrefix. */
    method StripEmptyPrefix() returns (ok: bool, subtrahend: uint32)
      requires Valid() && Checked(Value())
      modifies this`header, this`segments, this`relocs, Buffers()
      ensures Valid()
      ensures ok <==> StripPrefix.StripEmptyPrefix(old(Value())).Some?
      ensures ok ==>
                && Value() == StripPrefix.StripEmptyPrefix(old(Value())).value
                && subtrahend == old(Value()).segments[0].address
    {
      hide CheckedSegments, CheckedRelocs, CheckedHeader, ShiftSegments, ShiftRelocs, Sub32, Relocation.Relocate;
      CheckedFirst(Value());
      if relocsStripped {
        return false, 0;
      }
      subtrahend := segments[0].address;
      ok := Relocate(WrapSub(header.baseAddress, subtrahend), subtrahend);
      if !ok {
        return;
      }
      header := header.(baseAddress := WrapAdd(header.baseAddress, subtrahend),
                        entryPoint := Sub32(header.entryPoint, subtrahend));
      ShiftAddresses(subtrahend);
      ShiftTargets(subtrahend);
    }

    /** ToolImageStripRelocs. */
    method StripRelocs()
      modifies this`relocs, this`relocsStripped
      ensures Value() == old(Value()).(relocs := [], relocsStripped := true)
    {
      relocs, relocsStripped := [], true;
    }
  }

  lemma SameBuffers(refs: seq<SegmentRef>, before: seq<SegmentRef>)
    requires |refs| == |before| && forall i :: 0 <= i < |refs| ==> refs[i].data == before[i].data
    ensures (set r | r in refs :: r.data) == (set r | r in before :: r.data)
  {
    var s, t := set r | r in refs :: r.data, set r | r in before :: r.data;
    forall a | a in s ensures a in t {
      var i :| 0 <= i < |refs| && refs[i].data == a;
      assert before[i] in before;
    }
    forall a | a in t ensures a in s {
      var i :| 0 <= i < |before| && before[i].data == a;
      assert refs[i] in refs;
    }
  }

  lemma CheckedFirst(img: Image)
    requires Checked(img)
    ensures CheckedSegments(img.segments, img.alignment) && AllHold(img.segments, img.relocs) && img.segments != []
  {
  }

  lemma RelocateStep(segs: seq<Segment>, relocs: seq<Reloc>, i: nat, adjust: nat)
    requires i < |relocs| && AllHold(segs, relocs[i..])
    ensures CheckedReloc(segs, relocs[i])
    ensures var u := RelocateOne(segs, relocs[i], adjust);
            AllHold(u, relocs[i + 1..]) && RelocateAll(segs, relocs[i..], adjust) == RelocateAll(u, relocs[i + 1..], adjust)
  {
    hide RelocateOne, CheckedReloc, SameShape;
    assert relocs[i..][0] == relocs[i] && relocs[i..][1..] == relocs[i + 1..];
    assert CheckedReloc(segs, relocs[i..][0]);
    SameHold(segs, RelocateOne(segs, relocs[i], adjust), relocs[i..]);
  }

  lemma RelocateNone(segs: seq<Segment>, relocs: seq<Reloc>, adjust: nat)
    requires relocs == []
    ensures AllHold(segs, relocs) && RelocateAll(segs, relocs, adjust) == segs
  {
  }

  lemma NoSize(segs: seq<Segment>, r: Reloc)
    requires RelocSize(r.ty) == 0
    ensures !CheckedReloc(segs, r)
  {
  }

  lemma LastFits(segs: seq<Segment>, alignment: nat)
    requires CheckedSegments(segs, alignment)
    ensures ImageSize(segs) < TWO_32
  {
    assert CheckedSegment(segs, alignment, |segs| - 1);
  }
}
