/** Where segment bytes live in a UE file, and how in-place writes to the file act on the loaded segments. */
module UeBody {
  import opened Bytes
  import opened Image
  import opened Truncation
  import opened UeFixups
  import opened UeChains

  ghost predicate Sized(segs: seq<Segment>) {
    forall i :: 0 <= i < |segs| ==> segs[i].unpaddedSize <= |segs[i].data|
  }

  /** ToolImageEmitUeSegments: the unpadded bytes of all segments, one after the other. */
  function Body(segs: seq<Segment>): (b: seq<byte>)
    requires Sized(segs)
  {
    if segs == [] then [] else segs[0].data[..segs[0].unpaddedSize] + Body(segs[1..])
  }

  lemma {:induction false} SameBodySize(s: seq<Segment>, t: seq<Segment>)
    requires SameShape(s, t) && Sized(s)
    ensures Sized(t) && |Body(t)| == |Body(s)|
  {
    forall i | 0 <= i < |t| ensures t[i].unpaddedSize <= |t[i].data| {
      assert s[i].unpaddedSize <= |s[i].data|;
    }
    if s != [] {
      assert forall i :: 0 <= i < |s[1..]| ==> s[1..][i] == s[i + 1] && t[1..][i] == t[i + 1];
      SameBodySize(s[1..], t[1..]);
    }
  }

  /** ToolImageEmitUeGetFileOffset, relative to the first segment's bytes. */
  function FileOffset(segs: seq<Segment>, a: nat): (o: nat)
    requires Locate(segs, a) < |segs|
  {
    if InSegment(segs[0], a) then a - segs[0].address
    else segs[0].unpaddedSize + FileOffset(segs[1..], a)
  }

  /** The n bytes at a lie in the part of their segment that is stored in the file. */
  ghost predicate Stored(segs: seq<Segment>, a: nat, n: nat) {
    var i := Locate(segs, a);
    i < |segs| && a + n <= segs[i].address + segs[i].unpaddedSize
  }

  lemma {:induction false} OffsetInBody(segs: seq<Segment>, a: nat, n: nat)
    requires Sized(segs) && Stored(segs, a, n)
    ensures Holds(segs, a, n) && FileOffset(segs, a) + n <= |Body(segs)|
  {
    if !InSegment(segs[0], a) {
      OffsetInBody(segs[1..], a, n);
    }
  }

  /** The file holds the word at the offset the mapping gives. */
  lemma {:induction false} BodyRead(segs: seq<Segment>, a: nat, n: nat)
    requires Sized(segs) && Stored(segs, a, n)
    ensures Holds(segs, a, n) && FileOffset(segs, a) + n <= |Body(segs)|
    ensures Load(Body(segs), FileOffset(segs, a), n) == ReadWord(segs, a, n)
  {
    OffsetInBody(segs, a, n);
    var s := segs[0];
    var head, rest := s.data[..s.unpaddedSize], Body(segs[1..]);
    if InSegment(s, a) {
      var o := a - s.address;
      assert (head + rest)[o..o + n] == s.data[o..o + n];
    } else {
      BodyRead(segs[1..], a, n);
      LoadInSuffix(head, rest, FileOffset(segs[1..], a), n);
    }
  }

  /** Writing the file at the mapped offset is writing the segments. */
  lemma {:induction false} BodyWrite(segs: seq<Segment>, a: nat, n: nat, v: nat)
    requires Sized(segs) && Stored(segs, a, n)
    ensures Holds(segs, a, n) && FileOffset(segs, a) + n <= |Body(segs)|
    ensures Sized(WriteWord(segs, a, n, v))
    ensures Body(WriteWord(segs, a, n, v)) == Store(Body(segs), FileOffset(segs, a), n, v)
  {
    OffsetInBody(segs, a, n);
    var s, t := segs[0], WriteWord(segs, a, n, v);
    var head, rest := s.data[..s.unpaddedSize], Body(segs[1..]);
    if InSegment(s, a) {
      assert t[1..] == segs[1..];
      StoreInPrefix(s.data, s.unpaddedSize, rest, a - s.address, n, v);
    } else {
      BodyWrite(segs[1..], a, n, v);
      assert t[0] == s && t[1..] == WriteWord(segs[1..], a, n, v);
      StoreInSuffix(head, rest, FileOffset(segs[1..], a), n, v);
    }
  }

  /** No two stored addresses share a byte of the file. */
  lemma {:induction false} OffsetInjective(segs: seq<Segment>, a: nat, b: nat)
    requires Sized(segs) && Stored(segs, a, 1) && Stored(segs, b, 1) && FileOffset(segs, a) == FileOffset(segs, b)
    ensures a == b
  {
    if !InSegment(segs[0], a) && !InSegment(segs[0], b) {
      OffsetInjective(segs[1..], a, b);
    }
  }

  ghost predicate Ascend(segs: seq<Segment>) {
    forall i, j :: 0 <= i < j < |segs| ==> segs[i].End() <= segs[j].address
  }

  /** The file keeps the order of stored words. */
  lemma {:induction false} OffsetMonotone(segs: seq<Segment>, a: nat, n: nat, b: nat)
    requires Sized(segs) && Ascend(segs) && Stored(segs, a, n) && Locate(segs, b) < |segs| && a + n <= b
    ensures FileOffset(segs, a) + n <= FileOffset(segs, b)
    decreases |segs|
  {
    if !InSegment(segs[0], a) {
      assert InSegment(segs[Locate(segs, a)], a);
      OffsetMonotone(segs[1..], a, n, b);
    }
  }

  /** Disjoint relocated words take at least four bytes each of the file. */
  lemma {:induction false} RelocsInBody(segs: seq<Segment>, relocs: seq<Reloc>, n: nat)
    requires Sized(segs) && Ascend(segs) && Truncated(segs, relocs) && Ordered(relocs) && AllHold(segs, relocs)
    requires 0 < n <= |relocs|
    ensures var r := relocs[n - 1];
            && Stored(segs, r.target, RelocSize(r.ty))
            && 4 * n <= FileOffset(segs, r.target) + RelocSize(r.ty) <= |Body(segs)|
  {
    hide Sized, Ascend, Truncated, FileOffset, Body, Locate;
    var r := relocs[n - 1];
    assert CheckedReloc(segs, r);
    InsideStored(segs, relocs, r, n - 1);
    OffsetInBody(segs, r.target, RelocSize(r.ty));
    if n > 1 {
      var q := relocs[n - 2];
      RelocsInBody(segs, relocs, n - 1);
      assert q.End() <= r.target;
      OffsetMonotone(segs, q.target, RelocSize(q.ty), r.target);
    }
  }

  // ---------------------------------------------------------------- loading

  /** What the loader makes of the stored bytes of one segment: copy them, zero the rest. */
  function Padded(stored: seq<byte>, size: nat): (data: seq<byte>)
    requires |stored| <= size
    ensures |data| == size
  {
    stored + Zeros(size - |stored|)
  }

  lemma PaddedSegment(s: Segment)
    requires s.unpaddedSize <= |s.data| && forall j :: s.unpaddedSize <= j < |s.data| ==> s.data[j] == 0
    ensures Padded(s.data[..s.unpaddedSize], |s.data|) == s.data
  {
  }

  // ---------------------------------------------------------------- packed segments are still truncated

  lemma InsideStored(segs: seq<Segment>, relocs: seq<Reloc>, r: Reloc, k: nat)
    requires Truncated(segs, relocs) && k < |relocs| && relocs[k] == r && CheckedReloc(segs, r)
    ensures Stored(segs, r.target, RelocSize(r.ty))
  {
    assert TruncatedSegment(segs[Locate(segs, r.target)], relocs);
    assert Inside(segs[Locate(segs, r.target)], relocs[k]);
  }

  lemma TruncatedSized(segs: seq<Segment>, relocs: seq<Reloc>)
    requires Truncated(segs, relocs)
    ensures Sized(segs)
  {
    forall i | 0 <= i < |segs| ensures segs[i].unpaddedSize <= |segs[i].data| {
      assert TruncatedSegment(segs[i], relocs);
    }
  }

  lemma SameStored(s: seq<Segment>, t: seq<Segment>, a: nat, n: nat)
    requires SameShape(s, t) && Stored(s, a, n)
    ensures Stored(t, a, n) && FileOffset(t, a) == FileOffset(s, a)
  {
    SameLocate(s, t, a);
    SameOffset(s, t, a);
  }

  lemma {:induction false} SameOffset(s: seq<Segment>, t: seq<Segment>, a: nat)
    requires SameShape(s, t) && Locate(s, a) < |s| && Locate(t, a) < |t|
    ensures FileOffset(t, a) == FileOffset(s, a)
  {
    if !InSegment(s[0], a) {
      SameOffset(s[1..], t[1..], a);
    }
  }

  /** Packing changes stored bytes only: the part of each segment that is not in the file stays zero. */
  lemma ChainedTail(segs: seq<Segment>, alignment: nat, relocs: seq<Reloc>, fs: seq<Fixup>, chaining: bool, i: nat)
    requires CheckedSegments(segs, alignment) && Truncated(segs, relocs) && FixupsHold(segs, fs)
    requires |fs| == |relocs| && forall k :: 0 <= k < |fs| ==> fs[k].reloc == relocs[k]
    requires i < |segs|
    ensures var t := Chained(segs, fs, chaining, 0);
            && t[i].unpaddedSize <= |t[i].data|
            && forall j :: t[i].unpaddedSize <= j < |t[i].data| ==> t[i].data[j] == 0
  {
    var t, s := Chained(segs, fs, chaining, 0), segs[i];
    assert TruncatedSegment(s, relocs);
    forall j | s.unpaddedSize <= j < |s.data| ensures t[i].data[j] == 0 {
      forall k | 0 <= k < |fs| ensures !(fs[k].reloc.target <= s.address + j < fs[k].reloc.End()) {
        if fs[k].reloc.target <= s.address + j < fs[k].reloc.End() {
          assert CheckedReloc(segs, fs[k].reloc);
          CoverInside(segs, alignment, relocs[k], i, s.address + j);
        }
      }
      ChainedFrame(segs, fs, chaining, 0, i, j);
    }
  }
}
