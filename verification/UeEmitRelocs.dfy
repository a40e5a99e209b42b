/** The relocation table of the UE emitter as it works: appending to a buffer and patching what it has appended (UeEmit.c). */
module UeEmitRelocs {
  import opened Bytes
  import opened DynamicBuffer
  import opened Image
  import opened Truncation
  import opened UeFixups
  import opened UeChains
  import opened UeRoundTrip
  import opened UeBody
  import opened UeFormat

  // ---------------------------------------------------------------- words of segments in the buffer

  /** The buffer holds the stored bytes of t after pre and before rest. */
  ghost predicate Layout(c: seq<byte>, pre: seq<byte>, t: seq<Segment>, rest: seq<byte>) {
    Sized(t) && c == pre + Body(t) + rest
  }

  lemma StoreInMiddle(p: seq<byte>, m: seq<byte>, r: seq<byte>, o: nat, n: nat, v: nat)
    requires o + n <= |m|
    ensures Store(p + m + r, |p| + o, n, v) == p + Store(m, o, n, v) + r
  {
    SpliceIndex(m, o, ToLe(v, n));
    SpliceIndex(p + m + r, |p| + o, ToLe(v, n));
  }

  lemma LoadInMiddle(p: seq<byte>, m: seq<byte>, r: seq<byte>, o: nat, n: nat)
    requires o + n <= |m|
    ensures Load(p + m + r, |p| + o, n) == Load(m, o, n)
  {
    assert (p + m + r)[|p| + o..|p| + o + n] == m[o..o + n];
  }

  method ReadStored(b: Buffer, offset: nat, n: nat, ghost pre: seq<byte>, ghost t: seq<Segment>, ghost rest: seq<byte>,
                    ghost a: nat)
    returns (v: nat)
    requires b.Valid() && Layout(b.Contents(), pre, t, rest)
    requires 0 < n && Stored(t, a, n) && offset == |pre| + FileOffset(t, a)
    ensures Holds(t, a, n) && v == ReadWord(t, a, n)
  {
    BodyRead(t, a, n);
    LoadInMiddle(pre, Body(t), rest, FileOffset(t, a), n);
    var data := b.Read(offset, n);
    v := FromLe(data);
  }

  method WriteStored(b: Buffer, offset: nat, n: nat, v: nat, ghost pre: seq<byte>, ghost t: seq<Segment>,
                     ghost rest: seq<byte>, ghost a: nat)
    requires b.Valid() && Layout(b.Contents(), pre, t, rest)
    requires 0 < n && Stored(t, a, n) && offset == |pre| + FileOffset(t, a)
    modifies b.memory
    ensures Holds(t, a, n)
    ensures b.Valid() && Layout(b.Contents(), pre, WriteWord(t, a, n, v), rest)
  {
    BodyWrite(t, a, n, v);
    StoreInMiddle(pre, Body(t), rest, FileOffset(t, a), n, v);
    b.Write(offset, ToLe(v, n));
  }

  // ---------------------------------------------------------------- one fixup: the chain

  /** The five variables the emitter keeps about a relocation. */
  datatype Cursor = Cursor(ty: nat, target: nat, fileOffset: nat, value: nat, size: nat)

  const NO_CURSOR := Cursor(0, 0, 0, 0, 0)

  /** c describes the fixup f, whose word is stored in the file. */
  ghost predicate Tracks(c: Cursor, f: Option<Fixup>, base: nat, t: seq<Segment>) {
    if f.None? then c == NO_CURSOR
    else
      && c.ty == f.value.ty && c.target == f.value.reloc.target
      && c.value == f.value.value && c.size == f.value.Size() > 0
      && Stored(t, c.target, c.size) && c.fileOffset == base + FileOffset(t, c.target)
  }

  lemma TracksSame(c: Cursor, f: Option<Fixup>, base: nat, s: seq<Segment>, t: seq<Segment>)
    requires SameShape(s, t) && Tracks(c, f, base, s)
    ensures Tracks(c, f, base, t)
  {
    if f.Some? {
      SameStored(s, t, c.target, c.size);
    }
  }

  lemma StoredHolds(c: seq<byte>, pre: seq<byte>, t: seq<Segment>, rest: seq<byte>, a: nat, n: nat)
    requires Layout(c, pre, t, rest) && Stored(t, a, n)
    ensures Holds(t, a, n)
  {
  }

  /**
   * The part of an iteration that handles chaining: link the previous word to this one if the chain goes on, and
   * write this word as the chain's end. `link` reports that the table needs no entry.
   */
  method ChainFixup(b: Buffer, prev: Cursor, cur: Cursor, offset: nat, chaining: bool, chainInProgress: bool,
                    ghost last: Option<Fixup>, ghost r: Reloc, ghost pre: seq<byte>, ghost t: seq<Segment>,
                    ghost rest: seq<byte>)
    returns (ok: bool, ty: nat, link: bool, inProgress: bool)
    requires b.Valid() && Layout(b.Contents(), pre, t, rest)
    requires Tracks(prev, last, |pre|, t)
    requires last.Some? ==> last.value.reloc.End() <= r.target
    requires RelocSize(r.ty) > 0 && cur.target == r.target && cur.size == RelocSize(r.ty)
    requires cur.ty == (if r.ty == REL_DIR64 then RELOC_64 else RELOC_32)
    requires Stored(t, cur.target, cur.size) && cur.fileOffset == |pre| + FileOffset(t, cur.target)
    requires offset == cur.target - (prev.target + prev.size)
    requires chainInProgress == (last.Some? && Packed(last.value, chaining))
    modifies b.memory
    ensures b.Valid()
    ensures ok <==> Next(last, r, cur.value, chaining).Some?
    ensures ok ==>
              var f := Next(last, r, cur.value, chaining).value;
              && ty == f.ty && (link <==> f.kind.Link?) && (inProgress <==> Packed(f, chaining))
              && offset == f.offset
              && Holds(t, r.target, f.Size())
              && (last.Some? ==> Holds(t, last.value.reloc.target, last.value.Size()))
              && Layout(b.Contents(), pre, Extend(t, last, f, chaining), rest)
  {
    hide Layout, Body, Holds, Stored, FileOffset, WriteWord, SameShape, Pack32, Pack64, Fits32, Fits64;
    StoredHolds(b.Contents(), pre, t, rest, cur.target, cur.size);
    if last.Some? {
      StoredHolds(b.Contents(), pre, t, rest, prev.target, prev.size);
    }
    ok, ty, link, inProgress := true, cur.ty, false, chainInProgress;
    var supported := chaining;
    ghost var u := t;
    if inProgress {
      inProgress := supported && offset <= MAX_OFFSET && prev.ty == ty;
      if inProgress && ty == RELOC_32 && !Fits32(cur.value) {
        inProgress, supported, ty := false, false, RELOC_32_NO_META;
      }
      if inProgress && ty == RELOC_64 {
        WriteStored(b, prev.fileOffset, prev.size, Pack64(prev.value, offset, ty), pre, t, rest, prev.target);
        u := WriteWord(t, prev.target, prev.size, Pack64(prev.value, offset, ty));
        SameStored(t, u, cur.target, cur.size);
      } else if inProgress && ty == RELOC_32 {
        WriteStored(b, prev.fileOffset, prev.size, Pack32(prev.value, offset), pre, t, rest, prev.target);
        u := WriteWord(t, prev.target, prev.size, Pack32(prev.value, offset));
        SameStored(t, u, cur.target, cur.size);
      }
    }
    if supported && ty == RELOC_64 {
      if !Fits64(cur.value) {
        ok := false;
        return;
      }
      WriteStored(b, cur.fileOffset, cur.size, Pack64(cur.value, OFFSET_END, 0), pre, u, rest, cur.target);
      link, inProgress := inProgress, true;
    } else if supported && ty == RELOC_32 {
      if !Fits32(cur.value) {
        inProgress, supported, ty := false, false, RELOC_32_NO_META;
      } else {
        WriteStored(b, cur.fileOffset, cur.size, Pack32(cur.value, OFFSET_END), pre, u, rest, cur.target);
        link, inProgress := inProgress, true;
      }
    }
  }

  // ---------------------------------------------------------------- one fixup: the table

  /** The table once the entry before the new one is settled: patched to lead to it, or followed by a new root. */
  function Opened(t: seq<byte>, prevTy: nat, f: Fixup): (u: seq<byte>)
    requires f.kind.Head? ==> |t| >= 2
    ensures |u| >= |t|
  {
    if f.kind.Head? then Store(t, |t| - 2, 2, HeadEntry(prevTy, f.offset))
    else t + Zeros(AlignAddend(|t|, 4)) + ToLe(f.offset, 4)
  }

  lemma TableSnoc(fs: seq<Fixup>, f: Fixup)
    requires RootFirst(fs) && RootFirst(fs + [f])
    ensures f.kind.Link? ==> Table(fs + [f], |fs| + 1) == Table(fs, |fs|)
    ensures f.kind.Head? ==> |Table(fs, |fs|)| >= 6
    ensures !f.kind.Link? ==>
              Table(fs + [f], |fs| + 1)
              == Opened(Table(fs, |fs|), if fs == [] then 0 else fs[|fs| - 1].ty, f) + ToLe(HeadEntry(f.ty, OFFSET_END), 2)
  {
    var gs := fs + [f];
    assert gs[|fs|] == f && (fs != [] ==> gs[|fs| - 1] == fs[|fs| - 1]);
    hide HeadEntry, Store, AlignAddend, ToLe;
    TablePrefix(fs, gs, |fs|);
  }

  method AppendRoot(b: Buffer, offset: uint32, ghost pre: seq<byte>, ghost t: seq<byte>) returns (ok: bool)
    requires b.Valid() && b.Contents() == pre + t && |pre| % 4 == 0
    modifies b, b.memory
    ensures b.Valid() && (b.memory == old(b.memory) || fresh(b.memory))
    ensures var u := t + Zeros(AlignAddend(|t|, 4)) + ToLe(offset, 4);
            if ok then b.Contents() == pre + u else Oversized(|pre| + |u|)
  {
    hide AlignAddend, ToLe, Zeros;
    SameAlignment(|pre|, |t|, 4);
    var at := b.AppendReserveAlign(4);
    if at == MAX_UINT32 {
      return false;
    }
    at := b.Append(ToLe(offset, 4));
    ok := at != MAX_UINT32;
    assert pre + t + Zeros(AlignAddend(|t|, 4)) + ToLe(offset, 4) == pre + (t + Zeros(AlignAddend(|t|, 4)) + ToLe(offset, 4));
  }

  method PatchHead(b: Buffer, at: nat, entry: nat, ghost pre: seq<byte>, ghost t: seq<byte>)
    requires b.Valid() && b.Contents() == pre + t && |t| >= 2 && at == |pre| + |t| - 2
    modifies b.memory
    ensures b.Valid() && b.Contents() == pre + Store(t, |t| - 2, 2, entry)
  {
    StoreInSuffix(pre, t, |t| - 2, 2, entry);
    b.Write(at, ToLe(entry, 2));
  }

  /** The part of an iteration that describes a fixup in the table: by a new head of the current root, or by a new root. */
  method DescribeFixup(b: Buffer, first: bool, prevTy: nat, prevEntry: nat, offset: uint32, ty: nat,
                       ghost fs: seq<Fixup>, ghost f: Fixup, ghost pre: seq<byte>)
    returns (ok: bool, entry: uint32)
    requires b.Valid() && RootFirst(fs + [f]) && RootFirst(fs) && b.Contents() == pre + Table(fs, |fs|) && |pre| % 4 == 0
    requires f.ty == ty && f.offset == offset && !f.kind.Link?
    requires first == (fs == []) && (f.kind.Head? <==> !first && offset <= MAX_OFFSET)
    requires !first ==> prevTy == fs[|fs| - 1].ty && prevEntry == |pre| + |Table(fs, |fs|)| - 2
    modifies b, b.memory
    ensures b.Valid() && (b.memory == old(b.memory) || fresh(b.memory))
    ensures ok ==> b.Contents() == pre + Table(fs + [f], |fs| + 1) && entry == b.dataSize - 2
    ensures !ok ==> Oversized(|pre| + |Table(fs + [f], |fs| + 1)|)
  {
    hide Table, HeadEntry, Store, ToLe, AlignAddend, Zeros;
    ghost var t := Table(fs, |fs|);
    TableSnoc(fs, f);
    entry := 0;
    if !first && offset <= MAX_OFFSET {
      PatchHead(b, prevEntry, HeadEntry(prevTy, offset), pre, t);
    } else {
      ok := AppendRoot(b, offset, pre, t);
      if !ok {
        return;
      }
    }
    ghost var u := Opened(t, if fs == [] then 0 else fs[|fs| - 1].ty, f);
    assert b.Contents() == pre + u;
    entry := b.Append(ToLe(HeadEntry(ty, OFFSET_END), 2));
    ok := entry != MAX_UINT32;
    assert pre + u + ToLe(HeadEntry(ty, OFFSET_END), 2) == pre + (u + ToLe(HeadEntry(ty, OFFSET_END), 2));
  }

  // ---------------------------------------------------------------- from an address to a file offset

  lemma {:induction false} TableAt(segs: seq<Segment>, k: nat)
    requires AllPermitted(segs) && k < |segs|
    ensures SegmentTable(segs)[SEGMENT_HEADER_SIZE * k..SEGMENT_HEADER_SIZE * (k + 1)] == SegmentHeader(segs[k])
  {
    if k > 0 {
      var h, t := SegmentHeader(segs[0]), SegmentTable(segs[1..]);
      TableAt(segs[1..], k - 1);
      assert (h + t)[SEGMENT_HEADER_SIZE * k..SEGMENT_HEADER_SIZE * (k + 1)]
          == t[SEGMENT_HEADER_SIZE * (k - 1)..SEGMENT_HEADER_SIZE * k];
    }
  }

  /** The buffer holds the segment table at `at`. */
  ghost predicate HoldsTable(c: seq<byte>, at: nat, segs: seq<Segment>) {
    && AllPermitted(segs) && Storable(segs)
    && at + SEGMENT_HEADER_SIZE * |segs| <= |c|
    && c[at..at + SEGMENT_HEADER_SIZE * |segs|] == SegmentTable(segs)
  }

  lemma TableEntry(c: seq<byte>, at: nat, segs: seq<Segment>, k: nat)
    requires HoldsTable(c, at, segs) && k < |segs|
    ensures at + SEGMENT_HEADER_SIZE * (k + 1) <= |c|
    ensures Permissions(segs[k]).Some?
    ensures ReadEntry(c[at + SEGMENT_HEADER_SIZE * k..at + SEGMENT_HEADER_SIZE * (k + 1)]) == EntryOf(segs[k])
  {
    hide SegmentHeader, SegmentTable, ReadEntry, EntryOf;
    TableAt(segs, k);
    assert StorableSegment(segs[k]);
    EntryRoundTrip(segs[k], []);
    var i, j := SEGMENT_HEADER_SIZE * k, SEGMENT_HEADER_SIZE * (k + 1);
    assert c[at + i..at + j] == c[at..at + SEGMENT_HEADER_SIZE * |segs|][i..j];
    assert SegmentHeader(segs[k]) + [] == SegmentHeader(segs[k]);
  }

  lemma LocateTail(segs: seq<Segment>, a: nat)
    requires segs != [] && !InSegment(segs[0], a)
    ensures Locate(segs, a) == 1 + Locate(segs[1..], a)
    ensures Locate(segs, a) < |segs| ==> FileOffset(segs, a) == segs[0].unpaddedSize + FileOffset(segs[1..], a)
  {
  }

  method ReadHeader(b: Buffer, headersOffset: nat, index: nat, ghost segs: seq<Segment>) returns (entry: Entry)
    requires b.Valid() && HoldsTable(b.Contents(), headersOffset, segs) && index < |segs|
    ensures entry.size == |segs[index].data| && entry.fileSize == segs[index].unpaddedSize
  {
    TableEntry(b.Contents(), headersOffset, segs, index);
    var header := b.Read(headersOffset + SEGMENT_HEADER_SIZE * index, SEGMENT_HEADER_SIZE);
    entry := ReadEntry(header);
  }

  /** The mapping read off the segment headers in the buffer; MAX_UINT32 for an address outside every segment. */
  method GetFileOffset(b: Buffer, headersOffset: nat, segmentsOffset: nat, numSegments: nat, address: uint32,
                       ghost segs: seq<Segment>, ghost alignment: nat)
    returns (offset: nat, size: nat)
    requires b.Valid() && HoldsTable(b.Contents(), headersOffset, segs) && numSegments == |segs|
    requires CheckedSegments(segs, alignment) && segs[0].address == 0
    requires Locate(segs, address) < |segs| ==> Stored(segs, address, 1)
    ensures var i := Locate(segs, address);
            && (i == |segs| ==> offset == MAX_UINT32)
            && (i < |segs| ==> offset == segmentsOffset + FileOffset(segs, address)
                               && size == segs[i].address + segs[i].unpaddedSize - address)
  {
    hide FileOffset, HoldsTable, IsPow2, Aligned;
    var segmentAddress, segmentOffset, index := 0, segmentsOffset, 0;
    ghost var i := Locate(segs, address);
    assert segs[0..] == segs;
    while index < numSegments && segmentAddress <= address
      invariant 0 <= index <= i <= |segs|
      invariant segmentAddress == (if index == 0 then 0 else segs[index - 1].End()) <= address
      invariant Locate(segs[index..], address) == i - index
      invariant i < |segs| ==> segmentOffset + FileOffset(segs[index..], address) == segmentsOffset + FileOffset(segs, address)
    {
      assert CheckedSegment(segs, alignment, index);
      var entry := ReadHeader(b, headersOffset, index, segs);
      var offsetInSegment := address - segmentAddress;
      ghost var rest := segs[index..];
      if offsetInSegment < entry.size {
        FoundHere(rest, address);
        return segmentOffset + offsetInSegment, entry.fileSize - offsetInSegment;
      }
      LocateTail(rest, address);
      assert rest[1..] == segs[index + 1..];
      segmentAddress, segmentOffset, index := segmentAddress + entry.size, segmentOffset + entry.fileSize, index + 1;
    }
    offset, size := MAX_UINT32, 0;
  }

  lemma FoundHere(segs: seq<Segment>, a: nat)
    requires segs != [] && InSegment(segs[0], a)
    ensures Locate(segs, a) == 0 && FileOffset(segs, a) == a - segs[0].address
  {
  }

  // ---------------------------------------------------------------- one iteration

  /** The buffer after the fixups fs: packed segments, padding and the table so far. */
  ghost predicate Emitting(c: seq<byte>, pre: seq<byte>, segs: seq<Segment>, pad: seq<byte>, fs: seq<Fixup>, chaining: bool) {
    && Planned(segs, fs, chaining) && FixupsHold(segs, fs) && RootFirst(fs)
    && Layout(c, pre, Chained(segs, fs, chaining, 0), pad + Table(fs, |fs|))
  }

  /** What one more relocation adds to the plan. */
  lemma PlanStep(segs: seq<Segment>, fs: seq<Fixup>, r: Reloc, chaining: bool)
    requires Planned(segs, fs, chaining) && FixupsHold(segs, fs) && CheckedReloc(segs, r)
    requires fs != [] ==> fs[|fs| - 1].reloc.End() <= r.target
    requires Next(Prev(fs, |fs|), r, ReadWord(segs, r.target, RelocSize(r.ty)), chaining).Some?
    ensures var f := Next(Prev(fs, |fs|), r, ReadWord(segs, r.target, RelocSize(r.ty)), chaining).value;
            && Planned(segs, fs + [f], chaining) && FixupsHold(segs, fs + [f]) && RootFirst(fs + [f])
            && f.reloc == r && f.ty < RELOC_GENERIC_MAX
            && (f.kind.Link? ==> fs != [])
            && (!f.kind.Link? ==> (f.kind.Head? <==> fs != [] && f.offset <= MAX_OFFSET))
            && Holds(Chained(segs, fs, chaining, 0), r.target, f.Size())
            && (fs != [] ==> Holds(Chained(segs, fs, chaining, 0), fs[|fs| - 1].reloc.target, fs[|fs| - 1].Size()))
            && Chained(segs, fs + [f], chaining, 0) == Extend(Chained(segs, fs, chaining, 0), Prev(fs, |fs|), f, chaining)
  {
    hide Chained, Holds, ReadWord, Planned, FixupsHold, Fits32, Fits64, Extend;
    var f := Next(Prev(fs, |fs|), r, ReadWord(segs, r.target, RelocSize(r.ty)), chaining).value;
    PlannedSnoc(segs, fs, f, chaining);
    PlannedHolds(segs, fs + [f], chaining);
    PlannedWellFormed(segs, fs + [f], chaining);
    ChainedSnoc(segs, fs, f, chaining);
  }

  /** No in-place write so far touched the word of the next relocation. */
  lemma NextValue(segs: seq<Segment>, fs: seq<Fixup>, r: Reloc, chaining: bool)
    requires Planned(segs, fs, chaining) && FixupsHold(segs, fs) && CheckedReloc(segs, r)
    requires fs != [] ==> fs[|fs| - 1].reloc.End() <= r.target
    ensures var t := Chained(segs, fs, chaining, 0);
            Holds(t, r.target, RelocSize(r.ty))
            && ReadWord(t, r.target, RelocSize(r.ty)) == ReadWord(segs, r.target, RelocSize(r.ty))
  {
    hide Chained, Holds, ReadWord, Planned;
    forall j | 0 <= j < |fs| ensures fs[j].reloc.End() <= r.target {
      if j < |fs| - 1 {
        TargetsOrdered(segs, fs, chaining, j, |fs| - 1);
        assert fs[j].reloc.End() <= fs[|fs| - 1].reloc.target;
      }
    }
    ReadAfter(segs, fs, chaining, 0, r.target, RelocSize(r.ty));
  }

  /** What stays the same throughout: the segment headers in the buffer and the stored targets of the relocations. */
  ghost predicate Stage(pre: seq<byte>, segs: seq<Segment>, alignment: nat, relocs: seq<Reloc>, pad: seq<byte>, headersOffset: nat) {
    && CheckedSegments(segs, alignment) && segs[0].address == 0 && CheckedRelocs(segs, relocs) && Truncated(segs, relocs)
    && HoldsTable(pre, headersOffset, segs) && Sized(segs)
    && (|pre| + |Body(segs)| + |pad|) % 8 == 0
  }

  lemma StageTable(c: seq<byte>, pre: seq<byte>, rest: seq<byte>, segs: seq<Segment>, headersOffset: nat)
    requires HoldsTable(pre, headersOffset, segs) && c == pre + rest
    ensures HoldsTable(c, headersOffset, segs)
  {
    var n := SEGMENT_HEADER_SIZE * |segs|;
    assert c[headersOffset..headersOffset + n] == pre[headersOffset..headersOffset + n];
  }

  lemma LayoutTable(c: seq<byte>, pre: seq<byte>, t: seq<Segment>, rest: seq<byte>, segs: seq<Segment>, headersOffset: nat)
    requires HoldsTable(pre, headersOffset, segs) && Layout(c, pre, t, rest)
    ensures HoldsTable(c, headersOffset, segs)
  {
    hide HoldsTable;
    assert c == pre + (Body(t) + rest);
    StageTable(c, pre, Body(t) + rest, segs, headersOffset);
  }

  lemma StageStored(pre: seq<byte>, segs: seq<Segment>, alignment: nat, relocs: seq<Reloc>, pad: seq<byte>, headersOffset: nat,
                    k: nat)
    requires Stage(pre, segs, alignment, relocs, pad, headersOffset) && k < |relocs|
    ensures var r := relocs[k];
            && CheckedReloc(segs, r) && Stored(segs, r.target, RelocSize(r.ty)) && Stored(segs, r.target, 1)
            && Locate(segs, r.target) < |segs|
  {
    hide HoldsTable, Body, Truncated;
    assert CheckedReloc(segs, relocs[k]);
    InsideStored(segs, relocs, relocs[k], k);
  }

  /** The current relocation as the emitter first sees it. */
  method Inspect(b: Buffer, r: Reloc, headersOffset: nat, segmentsOffset: nat, numSegments: nat, chaining: bool,
                 ghost pre: seq<byte>, ghost segs: seq<Segment>, ghost alignment: nat, ghost relocs: seq<Reloc>,
                 ghost pad: seq<byte>, ghost fs: seq<Fixup>)
    returns (cur: Cursor)
    requires b.Valid() && Stage(pre, segs, alignment, relocs, pad, headersOffset)
    requires Emitting(b.Contents(), pre, segs, pad, fs, chaining)
    requires |fs| < |relocs| && r == relocs[|fs|] && (fs != [] ==> fs[|fs| - 1].reloc.End() <= r.target)
    requires segmentsOffset == |pre| && numSegments == |segs|
    requires CheckedReloc(segs, r) && Stored(segs, r.target, RelocSize(r.ty))
    ensures cur.ty == (if r.ty == REL_DIR64 then RELOC_64 else RELOC_32)
    ensures cur.target == r.target && cur.size == RelocSize(r.ty)
    ensures cur.fileOffset == |pre| + FileOffset(segs, r.target)
    ensures cur.value == ReadWord(segs, r.target, RelocSize(r.ty))
  {
    hide Body, FileOffset, HoldsTable, Chained, Planned, FixupsHold, Table, Truncated, CheckedRelocs, CheckedSegments;
    hide ReadWord, Holds;
    ghost var t, rest := Chained(segs, fs, chaining, 0), pad + Table(fs, |fs|);
    StageStored(pre, segs, alignment, relocs, pad, headersOffset, |fs|);
    LayoutTable(b.Contents(), pre, t, rest, segs, headersOffset);
    var offset, remaining := GetFileOffset(b, headersOffset, segmentsOffset, numSegments, r.target, segs, alignment);
    var size := if r.ty == REL_DIR64 then 8 else 4;
    assert remaining >= size == RelocSize(r.ty);
    SameStored(segs, t, r.target, size);
    OffsetFits(b.Contents(), pre, t, rest, r.target, size);
    NextValue(segs, fs, r, chaining);
    var value := ReadStored(b, offset, size, pre, t, rest, r.target);
    Pow256Values();
    cur := Cursor(if r.ty == REL_DIR64 then RELOC_64 else RELOC_32, r.target, offset, value, size);
  }

  lemma OffsetFits(c: seq<byte>, pre: seq<byte>, t: seq<Segment>, rest: seq<byte>, a: nat, n: nat)
    requires Layout(c, pre, t, rest) && Stored(t, a, n)
    ensures |pre| + FileOffset(t, a) + n <= |c|
  {
    OffsetInBody(t, a, n);
  }

  lemma LayoutParts(c: seq<byte>, pre: seq<byte>, t: seq<Segment>, pad: seq<byte>, table: seq<byte>)
    requires Sized(t)
    ensures Layout(c, pre, t, pad + table) <==> c == (pre + Body(t) + pad) + table
  {
    assert pre + Body(t) + (pad + table) == (pre + Body(t) + pad) + table;
  }

  /** Everything before the table, once the fixups fs are packed. */
  ghost function Packing(pre: seq<byte>, segs: seq<Segment>, pad: seq<byte>, fs: seq<Fixup>, chaining: bool): (p: seq<byte>)
    requires Sized(segs) && FixupsHold(segs, fs)
    ensures |p| == |pre| + |Body(segs)| + |pad|
  {
    SameBodySize(segs, Chained(segs, fs, chaining, 0));
    pre + Body(Chained(segs, fs, chaining, 0)) + pad
  }

  lemma EmittingParts(c: seq<byte>, pre: seq<byte>, segs: seq<Segment>, pad: seq<byte>, fs: seq<Fixup>, chaining: bool)
    requires Sized(segs) && Planned(segs, fs, chaining) && FixupsHold(segs, fs) && RootFirst(fs)
    ensures Emitting(c, pre, segs, pad, fs, chaining) <==> c == Packing(pre, segs, pad, fs, chaining) + Table(fs, |fs|)
  {
    hide Chained, Planned, FixupsHold, Table, Layout;
    var t := Chained(segs, fs, chaining, 0);
    SameBodySize(segs, t);
    LayoutParts(c, pre, t, pad, Table(fs, |fs|));
  }

  /** One iteration of the relocation table's loop. */
  method EmitFixup(b: Buffer, r: Reloc, prev: Cursor, prevEntry: nat, chainInProgress: bool,
                   headersOffset: nat, segmentsOffset: nat, numSegments: nat, first: bool, chaining: bool,
                   ghost pre: seq<byte>, ghost segs: seq<Segment>, ghost alignment: nat, ghost relocs: seq<Reloc>,
                   ghost pad: seq<byte>, ghost fs: seq<Fixup>)
    returns (ok: bool, cur: Cursor, entry: nat, inProgress: bool, ghost f: Option<Fixup>)
    requires b.Valid() && Stage(pre, segs, alignment, relocs, pad, headersOffset)
    requires Emitting(b.Contents(), pre, segs, pad, fs, chaining)
    requires |fs| < |relocs| && r == relocs[|fs|] && (fs != [] ==> fs[|fs| - 1].reloc.End() <= r.target)
    requires segmentsOffset == |pre| && numSegments == |segs| && first == (fs == [])
    requires Tracks(prev, Prev(fs, |fs|), |pre|, segs)
    requires chainInProgress == (fs != [] && Packed(fs[|fs| - 1], chaining))
    requires fs != [] ==> prevEntry == b.dataSize - 2
    modifies b, b.memory
    ensures b.Valid() && (b.memory == old(b.memory) || fresh(b.memory))
    ensures CheckedReloc(segs, r)
    ensures f == Next(Prev(fs, |fs|), r, ReadWord(segs, r.target, RelocSize(r.ty)), chaining)
    ensures ok ==>
              && f.Some? && Emitting(b.Contents(), pre, segs, pad, fs + [f.value], chaining)
              && Tracks(cur, f, |pre|, segs) && entry == b.dataSize - 2 && f.value.reloc == r
              && inProgress == Packed(f.value, chaining)
    ensures !ok ==>
              f.None? || (RootFirst(fs + [f.value])
                          && Oversized(|pre| + |Body(segs)| + |pad| + |Table(fs + [f.value], |fs| + 1)|))
  {
    hide Body, FileOffset, HoldsTable, Chained, Planned, FixupsHold, Table, Truncated, CheckedRelocs, CheckedSegments;
    hide ReadWord, Holds, Stored, Extend, Next, Packed, Layout, Sized, SameShape;
    ghost var last, t, rest := Prev(fs, |fs|), Chained(segs, fs, chaining, 0), pad + Table(fs, |fs|);
    StageStored(pre, segs, alignment, relocs, pad, headersOffset, |fs|);
    cur := Inspect(b, r, headersOffset, segmentsOffset, numSegments, chaining, pre, segs, alignment, relocs, pad, fs);
    f := Next(last, r, cur.value, chaining);
    entry := prevEntry;
    TracksSame(prev, last, |pre|, segs, t);
    SameStored(segs, t, r.target, cur.size);
    var ty, link;
    var offset := cur.target - (prev.target + prev.size);
    ok, ty, link, inProgress := ChainFixup(b, prev, cur, offset, chaining, chainInProgress, last, r, pre, t, rest);
    if !ok {
      return;
    }
    cur := cur.(ty := ty);
    PlanStep(segs, fs, r, chaining);
    NextReloc(last, r, cur.value, chaining);
    if link {
      TableSnoc(fs, f.value);
    } else {
      EmittingStep(b.Contents(), pre, segs, pad, fs, f.value, chaining);
      StageAligned(pre, segs, alignment, relocs, pad, headersOffset);
      ok, entry := DescribeFixup(b, first, prev.ty, prevEntry, offset, ty, fs, f.value,
                                 Packing(pre, segs, pad, fs + [f.value], chaining));
      EmittingParts(b.Contents(), pre, segs, pad, fs + [f.value], chaining);
    }
  }

  lemma EmittingStep(c: seq<byte>, pre: seq<byte>, segs: seq<Segment>, pad: seq<byte>, fs: seq<Fixup>, f: Fixup, chaining: bool)
    requires Sized(segs) && FixupsHold(segs, fs + [f]) && RootFirst(fs)
    requires Layout(c, pre, Chained(segs, fs + [f], chaining, 0), pad + Table(fs, |fs|))
    ensures c == Packing(pre, segs, pad, fs + [f], chaining) + Table(fs, |fs|)
  {
    hide Chained, FixupsHold, Table, Layout;
    var t := Chained(segs, fs + [f], chaining, 0);
    SameBodySize(segs, t);
    LayoutParts(c, pre, t, pad, Table(fs, |fs|));
  }

  lemma StageAligned(pre: seq<byte>, segs: seq<Segment>, alignment: nat, relocs: seq<Reloc>, pad: seq<byte>, headersOffset: nat)
    requires Stage(pre, segs, alignment, relocs, pad, headersOffset)
    ensures Sized(segs) && (|pre| + |Body(segs)| + |pad|) % 4 == 0
  {
    ModMod(|pre| + |Body(segs)| + |pad|, 8, 4);
  }

  // ---------------------------------------------------------------- the relocation table

  lemma PlanInit(segs: seq<Segment>, relocs: seq<Reloc>, chaining: bool)
    requires AllHold(segs, relocs) && Ordered(relocs) && relocs != [] && Plan(segs, relocs, chaining).Some?
    ensures var n := |relocs| - 1;
            Plan(segs, relocs[..n], chaining) == Some(Plan(segs, relocs, chaining).value[..n])
  {
    hide Next, Holds, ReadWord;
    var n := |relocs| - 1;
    var p := Plan(segs, relocs[..n], chaining).value;
    assert CheckedReloc(segs, relocs[n]);
    var f := Next(Prev(p, n), relocs[n], ReadWord(segs, relocs[n].target, RelocSize(relocs[n].ty)), chaining).value;
    assert Plan(segs, relocs, chaining).value == p + [f];
    assert (p + [f])[..n] == p;
  }

  lemma {:induction false} PlanExtends(segs: seq<Segment>, relocs: seq<Reloc>, chaining: bool, i: nat)
    requires AllHold(segs, relocs) && Ordered(relocs) && i <= |relocs|
    ensures Plan(segs, relocs, chaining).Some? ==>
              Plan(segs, relocs[..i], chaining) == Some(Plan(segs, relocs, chaining).value[..i])
    decreases |relocs|
  {
    hide Plan, CheckedReloc;
    if i == |relocs| {
      assert relocs[..i] == relocs;
      var p := Plan(segs, relocs, chaining);
      assert p.Some? ==> p.value[..i] == p.value;
    } else if Plan(segs, relocs, chaining).Some? {
      var n, fs := |relocs| - 1, Plan(segs, relocs, chaining).value;
      PlanInit(segs, relocs, chaining);
      PlanExtends(segs, relocs[..n], chaining, i);
      assert relocs[..n][..i] == relocs[..i] && fs[..n][..i] == fs[..i];
    }
  }

  /** What a failing or a growing plan of the first relocations says about the whole. */
  lemma PlanGoesOn(segs: seq<Segment>, relocs: seq<Reloc>, chaining: bool, fs: seq<Fixup>)
    requires AllHold(segs, relocs) && Ordered(relocs) && |fs| < |relocs|
    requires Plan(segs, relocs[..|fs|], chaining) == Some(fs)
    ensures var i, r := |fs|, relocs[|fs|];
            && CheckedReloc(segs, r) && (fs != [] ==> fs[i - 1].reloc.End() <= r.target)
            && var f := Next(Prev(fs, i), r, ReadWord(segs, r.target, RelocSize(r.ty)), chaining);
               && (f.None? ==> Plan(segs, relocs, chaining).None?)
               && (f.Some? ==> Plan(segs, relocs[..i + 1], chaining) == Some(fs + [f.value]))
  {
    hide Next, Holds, ReadWord;
    var i := |fs|;
    assert relocs[..i + 1][..i] == relocs[..i] && relocs[..i + 1][i] == relocs[i];
    assert CheckedReloc(segs, relocs[i]);
    PlanExtends(segs, relocs, chaining, i + 1);
  }

  /** No table is longer than the table of all fixups. */
  lemma PlanSize(segs: seq<Segment>, relocs: seq<Reloc>, chaining: bool, fs: seq<Fixup>, size: nat)
    requires AllHold(segs, relocs) && Ordered(relocs) && |fs| <= |relocs|
    requires Plan(segs, relocs[..|fs|], chaining) == Some(fs) && RootFirst(fs)
    requires Oversized(size + |Table(fs, |fs|)|)
    ensures var p := Plan(segs, relocs, chaining);
            p.Some? ==> RootFirst(p.value) && Oversized(size + |PaddedTable(p.value)|)
  {
    hide Next, Table, Plan;
    var p := Plan(segs, relocs, chaining);
    if p.Some? {
      PlanExtends(segs, relocs, chaining, |fs|);
      PlanPlanned(segs, relocs, chaining);
      PlannedWellFormed(segs, p.value, chaining);
      TablePrefix(fs, p.value, |fs|);
      TableGrows(p.value, |fs|, |p.value|);
    }
  }

  /** The loop over all relocations; the table is left without its final padding. */
  method EmitFixups(b: Buffer, relocs: seq<Reloc>, numSegments: nat, headersOffset: nat, segmentsOffset: nat, chaining: bool,
                    ghost pre: seq<byte>, ghost segs: seq<Segment>, ghost alignment: nat, ghost pad: seq<byte>)
    returns (ok: bool)
    requires b.Valid() && Stage(pre, segs, alignment, relocs, pad, headersOffset) && Layout(b.Contents(), pre, segs, pad)
    requires segmentsOffset == |pre| && numSegments == |segs|
    modifies b, b.memory
    ensures b.Valid() && (b.memory == old(b.memory) || fresh(b.memory))
    ensures var p := Plan(segs, relocs, chaining);
            && (ok ==> p.Some? && Emitting(b.Contents(), pre, segs, pad, p.value, chaining))
            && (!ok ==> p.None? || (RootFirst(p.value)
                                    && Oversized(|pre| + |Body(segs)| + |pad| + |PaddedTable(p.value)|)))
  {
    hide Body, FileOffset, HoldsTable, Planned, FixupsHold, Table, Truncated, CheckedSegments;
    hide ReadWord, Holds, Stored, Next, Packed, Sized, SameShape, Tracks, Plan, Emitting, Layout, CheckedReloc;
    var prev, prevEntry, chainInProgress, i := NO_CURSOR, 0, false, 0;
    ghost var fs: seq<Fixup> := [];
    NothingYet(b.Contents(), pre, segs, pad, chaining, relocs);
    while i < |relocs|
      invariant 0 <= i <= |relocs| && |fs| == i && Plan(segs, relocs[..i], chaining) == Some(fs)
      invariant b.Valid() && (b.memory == old(b.memory) || fresh(b.memory))
      invariant Emitting(b.Contents(), pre, segs, pad, fs, chaining)
      invariant Tracks(prev, Prev(fs, i), |pre|, segs)
      invariant chainInProgress == (i > 0 && Packed(fs[i - 1], chaining))
      invariant i > 0 ==> prevEntry == b.dataSize - 2
    {
      PlanGoesOn(segs, relocs, chaining, fs);
      var cur, entry, inProgress;
      ghost var f;
      ok, cur, entry, inProgress, f :=
        EmitFixup(b, relocs[i], prev, prevEntry, chainInProgress, headersOffset, segmentsOffset, numSegments, i == 0,
                  chaining, pre, segs, alignment, relocs, pad, fs);
      if !ok {
        if f.Some? {
          assert |fs + [f.value]| == i + 1;
          PlanSize(segs, relocs, chaining, fs + [f.value], |pre| + |Body(segs)| + |pad|);
        }
        return;
      }
      fs := fs + [f.value];
      prev, prevEntry, chainInProgress, i := cur, entry, inProgress, i + 1;
    }
    ok := true;
    assert relocs[..i] == relocs;
  }

  lemma NothingYet(c: seq<byte>, pre: seq<byte>, segs: seq<Segment>, pad: seq<byte>, chaining: bool, relocs: seq<Reloc>)
    requires Layout(c, pre, segs, pad)
    ensures Emitting(c, pre, segs, pad, [], chaining) && Tracks(NO_CURSOR, Prev([], 0), |pre|, segs)
    ensures AllHold(segs, relocs[..0]) && Ordered(relocs[..0]) && Plan(segs, relocs[..0], chaining) == Some([])
  {
    assert pad + [] == pad;
  }

  lemma StoreInFront(p: seq<byte>, r: seq<byte>, o: nat, n: nat, v: nat)
    requires o + n <= |p|
    ensures Store(p + r, o, n, v) == Store(p, o, n, v) + r
  {
    SpliceIndex(p, o, ToLe(v, n));
    SpliceIndex(p + r, o, ToLe(v, n));
  }

  /** Write a load table entry into the space reserved for it. */
  method FillLoadTable(b: Buffer, at: nat, id: nat, size: nat, ghost pre: seq<byte>, ghost rest: seq<byte>)
    requires b.Valid() && b.Contents() == pre + rest && at + 4 <= |pre|
    modifies b.memory
    ensures b.Valid() && b.Contents() == Store(pre, at, 4, LoadTable(id, size)) + rest
  {
    StoreInFront(pre, rest, at, 4, LoadTable(id, size));
    b.Write(at, ToLe(LoadTable(id, size), 4));
  }

  /** Everything after the load table headers: the packed segments, padding and the relocation table. */
  ghost function Laid(segs: seq<Segment>, fs: seq<Fixup>, chaining: bool, pad: seq<byte>): (l: seq<byte>)
    requires Sized(segs) && FixupsHold(segs, fs) && RootFirst(fs)
    ensures |l| == |Body(segs)| + |pad| + |PaddedTable(fs)|
  {
    SameBodySize(segs, Chained(segs, fs, chaining, 0));
    Body(Chained(segs, fs, chaining, 0)) + pad + PaddedTable(fs)
  }

  method PadTable(b: Buffer, ghost front: seq<byte>, ghost t: seq<byte>) returns (ok: bool)
    requires b.Valid() && b.Contents() == front + t && |front| % 8 == 0
    modifies b, b.memory
    ensures b.Valid() && (b.memory == old(b.memory) || fresh(b.memory))
    ensures var u := t + Zeros(AlignAddend(|t|, 8)); if ok then b.Contents() == front + u else Oversized(|front| + |u|)
  {
    hide AlignAddend, Zeros;
    SameAlignment(|front|, |t|, 8);
    var at := b.AppendReserveAlign(8);
    ok := at != MAX_UINT32;
    assert front + t + Zeros(AlignAddend(|t|, 8)) == front + (t + Zeros(AlignAddend(|t|, 8)));
  }

  /** ToolImageEmitUeRelocTable. */
  method EmitRelocTable(b: Buffer, relocs: seq<Reloc>, numSegments: nat, loadTableOffset: nat, headersOffset: nat,
                        segmentsOffset: nat, chaining: bool,
                        ghost pre: seq<byte>, ghost segs: seq<Segment>, ghost alignment: nat, ghost pad: seq<byte>)
    returns (ok: bool)
    requires b.Valid() && Stage(pre, segs, alignment, relocs, pad, headersOffset) && Layout(b.Contents(), pre, segs, pad)
    requires segmentsOffset == |pre| && numSegments == |segs| && loadTableOffset + 4 <= |pre|
    modifies b, b.memory
    ensures b.Valid() && (b.memory == old(b.memory) || fresh(b.memory))
    ensures var p := Plan(segs, relocs, chaining);
            && (p.Some? ==> FixupsHold(segs, p.value) && RootFirst(p.value))
            && (ok ==> p.Some? && b.Contents()
                                  == Store(pre, loadTableOffset, 4, LoadTable(TABLE_RELOC, |PaddedTable(p.value)|))
                                     + Laid(segs, p.value, chaining, pad))
            && (!ok ==> p.None? || Oversized(|pre| + |Laid(segs, p.value, chaining, pad)|))
  {
    hide Body, HoldsTable, Planned, FixupsHold, Table, Truncated, CheckedSegments, AllHold, Ordered, Chained;
    hide Sized, SameShape, Plan, AlignAddend, Store, Packing, Laid, Emitting;
    PlanKnown(segs, relocs, chaining);
    var relocTableOffset := b.dataSize;
    assert relocTableOffset == |pre| + |Body(segs)| + |pad|;
    ok := EmitFixups(b, relocs, numSegments, headersOffset, segmentsOffset, chaining, pre, segs, alignment, pad);
    if !ok {
      return;
    }
    ghost var fs := Plan(segs, relocs, chaining).value;
    EmittingParts(b.Contents(), pre, segs, pad, fs, chaining);
    ok := PadTable(b, Packing(pre, segs, pad, fs, chaining), Table(fs, |fs|));
    if !ok {
      return;
    }
    PackingLaid(pre, segs, pad, fs, chaining);
    FillLoadTable(b, loadTableOffset, TABLE_RELOC, b.dataSize - relocTableOffset, pre, Laid(segs, fs, chaining, pad));
  }

  lemma PackingLaid(pre: seq<byte>, segs: seq<Segment>, pad: seq<byte>, fs: seq<Fixup>, chaining: bool)
    requires Sized(segs) && FixupsHold(segs, fs) && RootFirst(fs)
    ensures Packing(pre, segs, pad, fs, chaining) + PaddedTable(fs) == pre + Laid(segs, fs, chaining, pad)
  {
    hide Body, Chained, PaddedTable, FixupsHold, Sized;
  }

  lemma PlanKnown(segs: seq<Segment>, relocs: seq<Reloc>, chaining: bool)
    requires AllHold(segs, relocs) && Ordered(relocs) && Sized(segs)
    ensures var p := Plan(segs, relocs, chaining);
            p.Some? ==>
              && Planned(segs, p.value, chaining) && FixupsHold(segs, p.value) && RootFirst(p.value)
              && Sized(Chained(segs, p.value, chaining, 0))
  {
    hide Plan, Planned, WellFormedAt;
    var p := Plan(segs, relocs, chaining);
    if p.Some? {
      PlanPlanned(segs, relocs, chaining);
      PlannedHolds(segs, p.value, chaining);
      PlannedWellFormed(segs, p.value, chaining);
      SameBodySize(segs, Chained(segs, p.value, chaining, 0));
    }
  }
}
