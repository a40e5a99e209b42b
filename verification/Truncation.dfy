/** Dropping trailing zeros without losing relocation targets (ImageInitUnpaddedSize, ToolImageEmitUePadChainedRelocs). */
module Truncation {
  import opened Bytes
  import opened Image
  import opened Relocation

  /** ImageInitUnpaddedSize for one segment: the size without trailing zero bytes. */
  function TrimmedSize(data: seq<byte>): (u: nat)
    ensures u <= |data|
    ensures forall j :: u <= j < |data| ==> data[j] == 0
    ensures u > 0 ==> data[u - 1] != 0
  {
    if data == [] then 0
    else if data[|data| - 1] != 0 then |data|
    else TrimmedSize(data[..|data| - 1])
  }

  /** The two conditions above determine the size. */
  lemma TrimmedUnique(data: seq<byte>, u: nat)
    requires u <= |data| && (forall j :: u <= j < |data| ==> data[j] == 0) && (u > 0 ==> data[u - 1] != 0)
    ensures TrimmedSize(data) == u
  {
  }

  predicate Inside(s: Segment, r: Reloc) {
    s.address <= r.target && r.End() <= s.End()
  }

  /** The offset, in s, of the end of the last relocation target inside s. */
  function RelocExtent(s: Segment, relocs: seq<Reloc>): (e: nat)
    ensures e <= |s.data|
    ensures forall k :: 0 <= k < |relocs| && Inside(s, relocs[k]) ==> relocs[k].End() <= s.address + e
    ensures e > 0 ==> exists k :: 0 <= k < |relocs| && Inside(s, relocs[k]) && relocs[k].End() == s.address + e
  {
    if relocs == [] then 0
    else
      var r := relocs[|relocs| - 1];
      var e := RelocExtent(s, relocs[..|relocs| - 1]);
      if Inside(s, r) && r.End() - s.address > e then r.End() - s.address else e
  }

  function UnpaddedSize(s: Segment, relocs: seq<Reloc>): (u: nat)
    ensures u <= |s.data|
  {
    var t, e := TrimmedSize(s.data), RelocExtent(s, relocs);
    if t < e then e else t
  }

  /** Both passes over all segments. */
  function Truncate(segs: seq<Segment>, relocs: seq<Reloc>): (t: seq<Segment>)
    ensures |t| == |segs|
    ensures forall i :: 0 <= i < |t| ==> t[i] == segs[i].(unpaddedSize := UnpaddedSize(segs[i], relocs))
  {
    if segs == [] then []
    else [segs[0].(unpaddedSize := UnpaddedSize(segs[0], relocs))] + Truncate(segs[1..], relocs)
  }

  /** The bytes past the unpadded size may be left out of the file: they are zero and hold no relocation target. */
  ghost predicate Truncated(segs: seq<Segment>, relocs: seq<Reloc>) {
    forall i :: 0 <= i < |segs| ==> TruncatedSegment(segs[i], relocs)
  }

  ghost predicate TruncatedSegment(s: Segment, relocs: seq<Reloc>) {
    && s.unpaddedSize <= |s.data|
    && (forall j :: s.unpaddedSize <= j < |s.data| ==> s.data[j] == 0)
    && forall k :: 0 <= k < |relocs| && Inside(s, relocs[k]) ==> relocs[k].End() <= s.address + s.unpaddedSize
  }

  /** No smaller size leaves out only zeros and no relocation target. */
  lemma TruncateLeast(segs: seq<Segment>, relocs: seq<Reloc>, i: nat, size: nat)
    requires i < |segs| && TruncatedSegment(segs[i].(unpaddedSize := size), relocs)
    ensures Truncate(segs, relocs)[i].unpaddedSize <= size
  {
    hide TrimmedSize, RelocExtent;
    var s, e := segs[i], RelocExtent(segs[i], relocs);
    var t := s.(unpaddedSize := size);
    assert forall k :: 0 <= k < |relocs| ==> Inside(t, relocs[k]) == Inside(s, relocs[k]);
    if e > 0 {
      var k :| 0 <= k < |relocs| && Inside(s, relocs[k]) && relocs[k].End() == s.address + e;
      assert Inside(t, relocs[k]);
    }
  }

  lemma TruncateTruncates(segs: seq<Segment>, relocs: seq<Reloc>)
    ensures Truncated(Truncate(segs, relocs), relocs)
  {
    var t := Truncate(segs, relocs);
    forall i | 0 <= i < |t| ensures TruncatedSegment(t[i], relocs) {
      assert t[i] == segs[i].(unpaddedSize := UnpaddedSize(segs[i], relocs));
      assert forall k :: 0 <= k < |relocs| ==> Inside(t[i], relocs[k]) == Inside(segs[i], relocs[k]);
    }
  }

  // ---------------------------------------------------------------- relocation does not reach past the unpadded size

  lemma {:induction false} TilesOrdered(segs: seq<Segment>, alignment: nat, i: nat, j: nat)
    requires CheckedSegments(segs, alignment) && i < j < |segs|
    ensures segs[i].End() <= segs[j].address
    decreases j
  {
    assert CheckedSegment(segs, alignment, j);
    if i < j - 1 {
      TilesOrdered(segs, alignment, i, j - 1);
    }
  }

  lemma TilesUnique(segs: seq<Segment>, alignment: nat, i: nat, j: nat, a: nat)
    requires CheckedSegments(segs, alignment) && i < |segs| && j < |segs|
    requires InSegment(segs[i], a) && InSegment(segs[j], a)
    ensures i == j
  {
    if i < j {
      TilesOrdered(segs, alignment, i, j);
    } else if j < i {
      TilesOrdered(segs, alignment, j, i);
    }
  }

  /** A relocation that covers an address of segment i lies inside segment i. */
  lemma CoverInside(segs: seq<Segment>, alignment: nat, r: Reloc, i: nat, a: nat)
    requires CheckedSegments(segs, alignment) && CheckedReloc(segs, r)
    requires i < |segs| && InSegment(segs[i], a) && r.target <= a < r.End()
    ensures Inside(segs[i], r)
  {
    var k := Locate(segs, r.target);
    TilesUnique(segs, alignment, i, k, a);
  }

  /** Past the end of the last target, relocation leaves a segment alone. */
  lemma TailUnchanged(segs: seq<Segment>, alignment: nat, relocs: seq<Reloc>, d: nat, i: nat, j: nat)
    requires CheckedSegments(segs, alignment) && AllHold(segs, relocs)
    requires i < |segs| && j < |segs[i].data|
    requires forall k :: 0 <= k < |relocs| && Inside(segs[i], relocs[k]) ==> relocs[k].End() <= segs[i].address + j
    ensures RelocateAll(segs, relocs, d)[i].data[j] == segs[i].data[j]
  {
    forall k | 0 <= k < |relocs| ensures !(relocs[k].target <= segs[i].address + j < relocs[k].End()) {
      if relocs[k].target <= segs[i].address + j < relocs[k].End() {
        assert CheckedReloc(segs, relocs[k]);
        CoverInside(segs, alignment, relocs[k], i, segs[i].address + j);
      }
    }
    RelocateAllFrame(segs, relocs, d, i, j);
  }

  lemma TruncatedRelocates(segs: seq<Segment>, alignment: nat, relocs: seq<Reloc>, d: nat)
    requires CheckedSegments(segs, alignment) && AllHold(segs, relocs) && Truncated(segs, relocs)
    ensures Truncated(RelocateAll(segs, relocs, d), relocs)
  {
    var t := RelocateAll(segs, relocs, d);
    forall i | 0 <= i < |t| ensures TruncatedSegment(t[i], relocs) {
      assert TruncatedSegment(segs[i], relocs);
      assert t[i] == segs[i].(data := t[i].data);
      forall j | t[i].unpaddedSize <= j < |t[i].data| ensures t[i].data[j] == 0 {
        TailUnchanged(segs, alignment, relocs, d, i, j);
      }
      assert forall k :: 0 <= k < |relocs| ==> Inside(t[i], relocs[k]) == Inside(segs[i], relocs[k]);
    }
  }

  lemma SameExtent(s: Segment, t: Segment, relocs: seq<Reloc>)
    requires s.address == t.address && |s.data| == |t.data|
    ensures RelocExtent(s, relocs) == RelocExtent(t, relocs)
  {
    assert forall k :: 0 <= k < |relocs| ==> Inside(s, relocs[k]) == Inside(t, relocs[k]);
  }

  /** Computing the sizes after a relocation instead of before it gives the same sizes. */
  lemma UnpaddedRelocates(segs: seq<Segment>, alignment: nat, relocs: seq<Reloc>, d: nat, i: nat)
    requires CheckedSegments(segs, alignment) && AllHold(segs, relocs) && i < |segs|
    ensures UnpaddedSize(RelocateAll(segs, relocs, d)[i], relocs) == UnpaddedSize(segs[i], relocs)
  {
    hide RelocateAll, CheckedSegments, AllHold;
    var s, t := segs[i], RelocateAll(segs, relocs, d)[i];
    var z, e := TrimmedSize(s.data), RelocExtent(s, relocs);
    SameExtent(s, t, relocs);
    forall j | e <= j < |s.data| ensures t.data[j] == s.data[j] {
      TailUnchanged(segs, alignment, relocs, d, i, j);
    }
    if z > e {
      TrimmedUnique(t.data, z);
    }
  }

  ghost predicate SameBytes(s: seq<Segment>, t: seq<Segment>) {
    |s| == |t| && forall i :: 0 <= i < |s| ==> s[i].address == t[i].address && s[i].data == t[i].data
  }

  lemma SameBytesLocate(s: seq<Segment>, t: seq<Segment>, a: nat)
    requires SameBytes(s, t)
    ensures Locate(s, a) == Locate(t, a)
  {
    var i, j := Locate(s, a), Locate(t, a);
    assert i < |s| ==> InSegment(t[i], a);
    assert j < |t| ==> InSegment(s[j], a);
  }

  lemma TruncateHold(segs: seq<Segment>, relocs: seq<Reloc>)
    requires AllHold(segs, relocs)
    ensures AllHold(Truncate(segs, relocs), relocs)
  {
    var t := Truncate(segs, relocs);
    forall k | 0 <= k < |relocs| ensures CheckedReloc(t, relocs[k]) {
      SameBytesLocate(segs, t, relocs[k].target);
    }
  }
}
