/** What the checker demands, said about addresses instead of list positions (Image.c). */
module ImageRules {
  import opened Bytes
  import opened Image
  import opened UeBody
  import opened UeFormat

  // ---------------------------------------------------------------- segments

  /** Every address of the image lies in a segment. */
  ghost predicate Gapless(segs: seq<Segment>)
    requires segs != []
  {
    forall a: nat :: segs[0].address <= a < ImageSize(segs) ==> Covered(segs, a)
  }

  ghost predicate Covered(segs: seq<Segment>, a: nat) { exists i :: 0 <= i < |segs| && InSegment(segs[i], a) }

  ghost predicate Contiguous(segs: seq<Segment>) {
    forall i :: 0 < i < |segs| ==> segs[i].address == segs[i - 1].End()
  }

  lemma {:induction false} EndsAscend(segs: seq<Segment>, i: nat, j: nat)
    requires Contiguous(segs) && i < j < |segs|
    ensures segs[i].End() <= segs[j].address
    decreases j
  {
    if i < j - 1 {
      EndsAscend(segs, i, j - 1);
    }
  }

  lemma {:induction false} CoveredBelow(segs: seq<Segment>, a: nat, n: nat)
    requires Contiguous(segs) && n < |segs| && segs[0].address <= a < segs[n].End()
    ensures Covered(segs, a)
    decreases n
  {
    if segs[n].address <= a {
      assert InSegment(segs[n], a);
    } else {
      CoveredBelow(segs, a, n - 1);
    }
  }

  lemma Uncovered(segs: seq<Segment>, i: nat)
    requires Ascend(segs) && 0 < i < |segs| && segs[i - 1].End() < segs[i].address
    ensures !Covered(segs, segs[i - 1].End())
  {
  }

  lemma NextAfter(segs: seq<Segment>, i: nat)
    requires segs != [] && Ascend(segs) && Gapless(segs) && 0 < i < |segs|
    ensures segs[i].address == segs[i - 1].End()
  {
    var a := segs[i - 1].End();
    if a < segs[i].address {
      Uncovered(segs, i);
    }
  }

  lemma Tiling(segs: seq<Segment>)
    requires segs != []
    ensures Contiguous(segs) <==> Ascend(segs) && Gapless(segs)
  {
    if Contiguous(segs) {
      forall i, j | 0 <= i < j < |segs| ensures segs[i].End() <= segs[j].address {
        EndsAscend(segs, i, j);
      }
      forall a: nat | segs[0].address <= a < ImageSize(segs) ensures Covered(segs, a) {
        CoveredBelow(segs, a, |segs| - 1);
      }
    }
    if Ascend(segs) && Gapless(segs) {
      forall i | 0 < i < |segs| ensures segs[i].address == segs[i - 1].End() {
        NextAfter(segs, i);
      }
    }
  }

  /** The segments tile a range below 4 GiB, cut at multiples of a power of two; none can be both written and run. */
  ghost predicate SegmentRules(segs: seq<Segment>, alignment: nat) {
    && (exists e: nat :: alignment == Pow2(e))
    && segs != [] && Ascend(segs) && Gapless(segs) && ImageSize(segs) < TWO_32
    && forall i :: 0 <= i < |segs| ==>
         !(segs[i].write && segs[i].execute) && segs[i].address % alignment == 0 && segs[i].End() % alignment == 0
  }

  lemma SumAligned(x: nat, y: nat, a: nat)
    requires a > 0 && x % a == 0
    ensures (x + y) % a == 0 <==> y % a == 0
  {
    DivModUnique(x + y, a, x / a + y / a, y % a);
  }

  lemma {:induction false} Edges(segs: seq<Segment>, alignment: nat, i: nat)
    requires CheckedSegments(segs, alignment) && i < |segs|
    ensures segs[i].address % alignment == 0 && segs[i].End() % alignment == 0
    decreases i
  {
    hide IsPow2;
    if i > 0 {
      Edges(segs, alignment, i - 1);
    }
    assert CheckedSegment(segs, alignment, i);
    SumAligned(segs[i].address, |segs[i].data|, alignment);
  }

  lemma SegmentsIs(segs: seq<Segment>, alignment: nat)
    ensures CheckedSegments(segs, alignment) <==> SegmentRules(segs, alignment)
  {
    hide IsPow2, Ascend, Gapless;
    if segs != [] {
      Tiling(segs);
    }
    if CheckedSegments(segs, alignment) {
      assert alignment == Pow2(Exponent(alignment));
      forall i | 0 <= i < |segs|
        ensures segs[i].address % alignment == 0 && segs[i].End() % alignment == 0 && !(segs[i].write && segs[i].execute)
        ensures i > 0 ==> segs[i].address == segs[i - 1].End()
      {
        Edges(segs, alignment, i);
        assert CheckedSegment(segs, alignment, i);
      }
      assert CheckedSegment(segs, alignment, |segs| - 1);
    }
    if SegmentRules(segs, alignment) {
      forall i | 0 <= i < |segs| ensures CheckedSegment(segs, alignment, i) {
        assert segs[i].End() % alignment == 0;
        SumAligned(segs[i].address, |segs[i].data|, alignment);
        if i < |segs| - 1 {
          EndsAscend(segs, i, |segs| - 1);
        }
      }
    }
  }

  // ---------------------------------------------------------------- relocations

  ghost predicate Touches(r: Reloc, a: nat) { r.target <= a < r.target + if r.ty == 10 then 8 else 4 }

  ghost predicate Within(s: Segment, r: Reloc) { forall a: nat :: Touches(r, a) ==> InSegment(s, a) }

  ghost predicate InOne(segs: seq<Segment>, r: Reloc) { exists k :: 0 <= k < |segs| && Within(segs[k], r) }

  /** The two kinds of relocation, sorted by target; none shares a byte with another, and none leaves its segment. */
  ghost predicate RelocRules(segs: seq<Segment>, relocs: seq<Reloc>) {
    && (forall i :: 0 <= i < |relocs| ==> relocs[i].ty == 3 || relocs[i].ty == 10)
    && (forall i, j :: 0 <= i < j < |relocs| ==> relocs[i].target < relocs[j].target)
    && (forall i, j, a: nat :: 0 <= i < j < |relocs| && Touches(relocs[i], a) ==> !Touches(relocs[j], a))
    && forall i :: 0 <= i < |relocs| ==> InOne(segs, relocs[i])
  }

  lemma OneHolds(segs: seq<Segment>, r: Reloc)
    requires Ascend(segs)
    ensures CheckedReloc(segs, r) <==> (r.ty == 3 || r.ty == 10) && InOne(segs, r)
  {
    if CheckedReloc(segs, r) {
      assert Within(segs[Locate(segs, r.target)], r);
    }
    if (r.ty == 3 || r.ty == 10) && InOne(segs, r) {
      var k :| 0 <= k < |segs| && Within(segs[k], r);
      assert Touches(r, r.target) && Touches(r, r.target + RelocSize(r.ty) - 1);
      assert Locate(segs, r.target) == k;
    }
  }

  lemma OrderIs(relocs: seq<Reloc>)
    requires forall i :: 0 <= i < |relocs| ==> relocs[i].ty == 3 || relocs[i].ty == 10
    ensures Ordered(relocs) <==>
              && (forall i, j :: 0 <= i < j < |relocs| ==> relocs[i].target < relocs[j].target)
              && (forall i, j, a: nat :: 0 <= i < j < |relocs| && Touches(relocs[i], a) ==> !Touches(relocs[j], a))
  {
    if !Ordered(relocs) {
      var i, j :| 0 <= i < j < |relocs| && relocs[i].End() > relocs[j].target;
      assert Touches(relocs[j], relocs[j].target);
    }
  }

  /** Words that do not overlap take four bytes each. */
  lemma {:induction false} FourEach(relocs: seq<Reloc>)
    requires Ordered(relocs) && forall i :: 0 <= i < |relocs| ==> RelocSize(relocs[i].ty) != 0
    ensures relocs != [] ==> 4 * |relocs| <= relocs[|relocs| - 1].End()
    decreases |relocs|
  {
    if |relocs| > 1 {
      var n := |relocs| - 1;
      FourEach(relocs[..n]);
      assert relocs[n - 1].End() <= relocs[n].target;
    }
  }

  lemma RelocsIs(segs: seq<Segment>, alignment: nat, relocs: seq<Reloc>)
    requires CheckedSegments(segs, alignment)
    ensures CheckedRelocs(segs, relocs) <==> RelocRules(segs, relocs)
  {
    hide CheckedSegments, CheckedReloc, Touches, InOne, Ascend;
    SegmentsIs(segs, alignment);
    forall i | 0 <= i < |relocs|
      ensures CheckedReloc(segs, relocs[i]) <==> (relocs[i].ty == 3 || relocs[i].ty == 10) && InOne(segs, relocs[i])
    {
      OneHolds(segs, relocs[i]);
    }
    if forall i :: 0 <= i < |relocs| ==> relocs[i].ty == 3 || relocs[i].ty == 10 {
      OrderIs(relocs);
      if Ordered(relocs) && AllHold(segs, relocs) && relocs != [] {
        FourEach(relocs);
        LastEnds(segs, alignment, relocs[|relocs| - 1]);
      }
    }
  }

  lemma LastEnds(segs: seq<Segment>, alignment: nat, r: Reloc)
    requires CheckedSegments(segs, alignment) && CheckedReloc(segs, r)
    ensures r.End() < TWO_32
  {
    assert CheckedSegment(segs, alignment, Locate(segs, r.target));
  }

  // ---------------------------------------------------------------- images

  /**
   * The checker accepts exactly the images whose segments tile an aligned range that does not wrap, whose entry point is
   * in it, whose relocations are sorted, disjoint and each inside one segment, and whose path fits a byte's count. Its
   * bound on the number of relocations never decides.
   */
  lemma CheckedIs(img: Image)
    ensures Checked(img) <==>
              && SegmentRules(img.segments, img.alignment)
              && img.segments[0].address <= img.header.entryPoint <= ImageSize(img.segments)
              && img.header.baseAddress % img.alignment == 0
              && img.header.baseAddress + ImageSize(img.segments) < 0x1_0000_0000_0000_0000
              && (img.relocs == [] || !img.relocsStripped) && RelocRules(img.segments, img.relocs)
              && (img.symbolsPath.Some? ==> |img.symbolsPath.value| <= 255)
  {
    hide CheckedSegments, CheckedRelocs, RelocRules;
    SegmentsIs(img.segments, img.alignment);
    if CheckedSegments(img.segments, img.alignment) {
      RelocsIs(img.segments, img.alignment, img.relocs);
    }
  }
}
