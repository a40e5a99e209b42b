/** The UE emitter as it works: appending a file to a buffer, part by part (UeEmit.c). */
module UeEmit {
  import opened Bytes
  import opened DynamicBuffer
  import opened Image
  import opened Truncation
  import opened UeFixups
  import opened UeRoundTrip
  import opened UeBody
  import opened UeFormat
  import opened UeFile
  import opened UeEndToEnd
  import opened UeEmitRelocs

  // ---------------------------------------------------------------- segment headers and segments

  lemma {:induction false} SegmentTableSnoc(segs: seq<Segment>, k: nat)
    requires k < |segs| && AllPermitted(segs[..k + 1])
    ensures AllPermitted(segs[..k]) && Permissions(segs[k]).Some?
    ensures SegmentTable(segs[..k + 1]) == SegmentTable(segs[..k]) + SegmentHeader(segs[k])
    decreases k
  {
    hide SegmentHeader;
    assert forall i :: 0 <= i < k ==> segs[..k][i] == segs[..k + 1][i];
    assert segs[..k + 1][k] == segs[k];
    if k > 0 {
      assert segs[..k + 1][1..] == segs[1..][..k] && segs[..k][1..] == segs[1..][..k - 1];
      SegmentTableSnoc(segs[1..], k - 1);
    }
  }

  /** ToolImageEmitUeSegmentHeaders for a file that is not XIP. */
  method EmitSegmentHeaders(b: Buffer, segs: seq<Segment>) returns (ok: bool)
    requires b.Valid()
    modifies b, b.memory
    ensures b.Valid() && (b.memory == old(b.memory) || fresh(b.memory))
    ensures ok ==> AllPermitted(segs) && b.Contents() == old(b.Contents()) + SegmentTable(segs)
    ensures !ok ==> !AllPermitted(segs) || Oversized(|old(b.Contents())| + SEGMENT_HEADER_SIZE * |segs|)
  {
    hide SegmentHeader, SegmentTable;
    var i := 0;
    ghost var c := b.Contents();
    assert segs[..0] == [];
    EmptyTable();
    while i < |segs|
      invariant 0 <= i <= |segs| && AllPermitted(segs[..i])
      invariant b.Valid() && (b.memory == old(b.memory) || fresh(b.memory))
      invariant b.Contents() == c + SegmentTable(segs[..i])
    {
      if Permissions(segs[i]).None? {
        return false;
      }
      assert forall k :: 0 <= k < i ==> segs[..i + 1][k] == segs[..i][k];
      SegmentTableSnoc(segs, i);
      var at := b.Append(SegmentHeader(segs[i]));
      if at == MAX_UINT32 {
        return false;
      }
      i := i + 1;
    }
    assert segs[..i] == segs;
    ok := true;
  }

  lemma EmptyTable()
    ensures SegmentTable([]) == []
  {
  }

  lemma {:induction false} BodySnoc(segs: seq<Segment>, k: nat)
    requires Sized(segs) && k < |segs|
    ensures Sized(segs[..k]) && Sized(segs[..k + 1])
    ensures Body(segs[..k + 1]) == Body(segs[..k]) + segs[k].data[..segs[k].unpaddedSize]
    decreases k
  {
    if k > 0 {
      assert segs[..k + 1][1..] == segs[1..][..k] && segs[..k][1..] == segs[1..][..k - 1];
      BodySnoc(segs[1..], k - 1);
    }
  }

  lemma {:induction false} BodyPrefix(segs: seq<Segment>, k: nat)
    requires Sized(segs) && k <= |segs|
    ensures Sized(segs[..k]) && |Body(segs[..k])| <= |Body(segs)|
    decreases |segs|
  {
    if k > 0 {
      assert segs[..k][1..] == segs[1..][..k - 1];
      BodyPrefix(segs[1..], k - 1);
    }
  }

  /** ToolImageEmitUeSegments. */
  method EmitSegments(b: Buffer, segs: seq<Segment>) returns (ok: bool)
    requires b.Valid() && Sized(segs) && forall i :: 0 <= i < |segs| ==> |segs[i].data| < TWO_32
    modifies b, b.memory
    ensures b.Valid() && (b.memory == old(b.memory) || fresh(b.memory))
    ensures var u := old(b.Contents()) + Body(segs);
            if ok then b.Contents() == u + Zeros(AlignAddend(|u|, 8)) else Oversized(AlignUp(|u|, 8))
  {
    hide Body, AlignAddend, Zeros;
    var i := 0;
    ghost var c := b.Contents();
    NoBody(segs);
    while i < |segs|
      invariant 0 <= i <= |segs| && Sized(segs[..i])
      invariant b.Valid() && (b.memory == old(b.memory) || fresh(b.memory))
      invariant b.Contents() == c + Body(segs[..i])
    {
      BodySnoc(segs, i);
      BodyPrefix(segs, i + 1);
      var at := b.Append(segs[i].data[..segs[i].unpaddedSize]);
      if at == MAX_UINT32 {
        return false;
      }
      i := i + 1;
    }
    assert segs[..i] == segs;
    var at := b.AppendReserveAlign(8);
    ok := at != MAX_UINT32;
  }

  lemma NoBody(segs: seq<Segment>)
    ensures Sized(segs[..0]) && Body(segs[..0]) == []
  {
  }

  // ---------------------------------------------------------------- the debug table

  lemma {:induction false} NameFieldsSnoc(segs: seq<Segment>, k: nat)
    requires k < |segs| && Named(segs[..k]) && segs[k].name.Some?
    ensures Named(segs[..k + 1])
    ensures NameFields(segs[..k + 1]) == NameFields(segs[..k]) + NameField(segs[k].name.value)
    decreases k
  {
    hide NameField;
    assert segs[..k + 1] == segs[..k] + [segs[k]];
    if k > 0 {
      assert segs[..k + 1][1..] == segs[1..][..k] && segs[..k][1..] == segs[1..][..k - 1];
      NameFieldsSnoc(segs[1..], k - 1);
    }
  }

  method EmitNames(b: Buffer, segs: seq<Segment>) returns (ok: bool)
    requires b.Valid()
    modifies b, b.memory
    ensures b.Valid() && (b.memory == old(b.memory) || fresh(b.memory))
    ensures ok ==> Named(segs) && b.Contents() == old(b.Contents()) + NameFields(segs)
    ensures !ok ==> !Named(segs) || Oversized(|old(b.Contents())| + 8 * |segs|)
  {
    hide NameField, NameFields;
    var i := 0;
    ghost var c := b.Contents();
    NoNames(segs);
    while i < |segs|
      invariant 0 <= i <= |segs| && Named(segs[..i])
      invariant b.Valid() && (b.memory == old(b.memory) || fresh(b.memory))
      invariant b.Contents() == c + NameFields(segs[..i])
    {
      if segs[i].name.None? {
        return false;
      }
      NameFieldsSnoc(segs, i);
      var at := b.Append(NameField(segs[i].name.value));
      if at == MAX_UINT32 {
        return false;
      }
      i := i + 1;
    }
    assert segs[..i] == segs;
    ok := true;
  }

  lemma NoNames(segs: seq<Segment>)
    ensures Named(segs[..0]) && NameFields(segs[..0]) == []
  {
  }

  ghost function DebugBytes(factor: byte, path: seq<byte>, segs: seq<Segment>): (d: seq<byte>)
    requires Named(segs) && |path| <= 0xFF
  {
    var t := [factor, |path|] + path + [0] + NameFields(segs);
    t + Zeros(AlignAddend(|t|, 8))
  }

  lemma DebugIs(img: Image, subtrahend: uint32)
    requires img.alignment > 0 && img.symbolsPath.Some? && |img.symbolsPath.value| <= 0xFF
    ensures var factor := subtrahend / img.alignment % 0x100;
            DebugTable(img, subtrahend) == if factor > 3 || !Named(img.segments) then None
                                           else Some(DebugBytes(factor, img.symbolsPath.value, img.segments))
  {
  }

  method EmitPath(b: Buffer, factor: byte, path: seq<byte>) returns (ok: bool)
    requires b.Valid() && |path| <= 0xFF
    modifies b, b.memory
    ensures b.Valid() && (b.memory == old(b.memory) || fresh(b.memory))
    ensures var t := [factor, |path|] + path + [0];
            if ok then b.Contents() == old(b.Contents()) + t else Oversized(|old(b.Contents())| + |t|)
  {
    var at := b.Append([factor, |path|]);
    if at == MAX_UINT32 {
      return false;
    }
    at := b.Append(path + [0]);
    ok := at != MAX_UINT32;
  }

  method EmitDebugBytes(b: Buffer, factor: byte, path: seq<byte>, segs: seq<Segment>) returns (ok: bool)
    requires b.Valid() && |path| <= 0xFF && b.dataSize % 8 == 0
    modifies b, b.memory
    ensures b.Valid() && (b.memory == old(b.memory) || fresh(b.memory))
    ensures ok ==> Named(segs) && b.Contents() == old(b.Contents()) + DebugBytes(factor, path, segs)
    ensures !ok ==> !Named(segs) || Oversized(|old(b.Contents())| + |DebugBytes(factor, path, segs)|)
  {
    hide NameFields, AlignAddend, Zeros, Named;
    ghost var front, t := b.Contents(), [factor, |path|] + path + [0];
    ok := EmitPath(b, factor, path);
    if !ok {
      return;
    }
    ok := EmitNames(b, segs);
    if !ok {
      return;
    }
    assert front + t + NameFields(segs) == front + (t + NameFields(segs));
    ok := PadTable(b, front, t + NameFields(segs));
  }

  /** ToolImageEmitUeDebugTable. */
  method EmitDebugTable(b: Buffer, loadTableOffset: nat, img: Image, subtrahend: uint32, ghost pre: seq<byte>,
                        ghost rest: seq<byte>)
    returns (ok: bool)
    requires b.Valid() && b.Contents() == pre + rest && b.dataSize % 8 == 0 && loadTableOffset + 4 <= |pre|
    requires img.alignment > 0 && img.symbolsPath.Some? && |img.symbolsPath.value| <= 0xFF
    modifies b, b.memory
    ensures b.Valid() && (b.memory == old(b.memory) || fresh(b.memory))
    ensures var d := DebugTable(img, subtrahend);
            && (ok ==> d.Some? && b.Contents()
                                  == Store(pre, loadTableOffset, 4, LoadTable(TABLE_DEBUG, |d.value|)) + (rest + d.value))
            && (!ok ==> d.None? || Oversized(|pre| + |rest| + |d.value|))
  {
    hide Store, DebugTable, DebugBytes, LoadTable, Named;
    DebugIs(img, subtrahend);
    var factor := subtrahend / img.alignment % 0x100;
    if factor > 3 {
      return false;
    }
    var debugTableOffset := b.dataSize;
    ok := EmitDebugBytes(b, factor, img.symbolsPath.value, img.segments);
    if !ok {
      return;
    }
    ghost var d := DebugTable(img, subtrahend).value;
    assert pre + rest + d == pre + (rest + d);
    FillLoadTable(b, loadTableOffset, TABLE_DEBUG, b.dataSize - debugTableOffset, pre, rest + d);
  }

  // ---------------------------------------------------------------- the load tables

  lemma FillReserved(a: seq<byte>, m: nat, v: nat)
    requires m >= 4
    ensures Store(a + Zeros(m), |a|, 4, v) == a + ToLe(v, 4) + Zeros(m - 4)
  {
    SpliceIndex(a + Zeros(m), |a|, ToLe(v, 4));
  }

  ghost function RelocEntry(img: Image, relocSize: nat): seq<byte> {
    if img.relocs != [] then ToLe(LoadTable(TABLE_RELOC, relocSize), 4) else []
  }

  ghost function DebugSpace(img: Image): nat { if img.symbolsPath.Some? then 4 else 0 }

  lemma NoFixups(img: Image, pad: seq<byte>, front: seq<byte>)
    requires Checked(img) && img.relocs == [] && Sized(img.segments)
    ensures Fixups(img) == Some([]) && FixupsHold(img.segments, []) && RootFirst([])
    ensures Laid(img.segments, [], Chaining(img.header), pad) == Body(img.segments) + pad
  {
    assert PaddedTable([]) == [];
    var fs: seq<Fixup> := [];
    assert Chained(img.segments, fs, Chaining(img.header), 0) == img.segments;
  }

  /** The relocation table, if there is one; the debug table's entry is still empty. */
  method EmitRelocsIfAny(b: Buffer, img: Image, loadTablesOffset: nat, headersOffset: nat, segmentsOffset: nat,
                         ghost front: seq<byte>, ghost pad: seq<byte>)
    returns (ok: bool, next: nat)
    requires b.Valid() && Checked(img) && Sized(img.segments)
    requires Stage(front + Zeros(4 * NumTables(img)), img.segments, img.alignment, img.relocs, pad, headersOffset)
    requires Layout(b.Contents(), front + Zeros(4 * NumTables(img)), img.segments, pad)
    requires loadTablesOffset == |front| && segmentsOffset == |front| + 4 * NumTables(img)
    modifies b, b.memory
    ensures b.Valid() && (b.memory == old(b.memory) || fresh(b.memory))
    ensures var p := Fixups(img);
            && (p.Some? ==> FixupsHold(img.segments, p.value) && RootFirst(p.value))
            && (ok ==>
                  && p.Some?
                  && next == |front| + |RelocEntry(img, |PaddedTable(p.value)|)|
                  && b.Contents() == front + RelocEntry(img, |PaddedTable(p.value)|) + Zeros(DebugSpace(img))
                                     + Laid(img.segments, p.value, Chaining(img.header), pad))
            && (!ok ==> p.None? || Oversized(segmentsOffset + |Laid(img.segments, p.value, Chaining(img.header), pad)|))
  {
    hide Store, Laid, Stage, Body, Plan, PaddedTable, FixupsHold, Sized, CheckedSegments, AllHold, Ordered;
    hide CheckedHeader;
    ok, next := true, loadTablesOffset;
    if img.relocs != [] {
      ok := EmitRelocTable(b, img.relocs, |img.segments|, loadTablesOffset, headersOffset, segmentsOffset,
                           Chaining(img.header), front + Zeros(4 * NumTables(img)), img.segments, img.alignment, pad);
      if ok {
        next := loadTablesOffset + 4;
        ghost var size := |PaddedTable(Fixups(img).value)|;
        FillReserved(front, 4 * NumTables(img), LoadTable(TABLE_RELOC, size));
      }
    } else {
      NoFixups(img, pad, front);
      assert b.Contents() == front + [] + Zeros(DebugSpace(img)) + (Body(img.segments) + pad);
    }
  }

  ghost function DebugEntry(img: Image, debugSize: nat): seq<byte> {
    if img.symbolsPath.Some? then ToLe(LoadTable(TABLE_DEBUG, debugSize), 4) else []
  }

  /** The debug table, if there is one. */
  method EmitDebugIfAny(b: Buffer, img: Image, subtrahend: uint32, loadTableOffset: nat, ghost a: seq<byte>,
                        ghost rest: seq<byte>)
    returns (ok: bool)
    requires b.Valid() && b.Contents() == a + Zeros(DebugSpace(img)) + rest && b.dataSize % 8 == 0 && loadTableOffset == |a|
    requires img.alignment > 0 && (img.symbolsPath.Some? ==> |img.symbolsPath.value| <= 0xFF)
    modifies b, b.memory
    ensures b.Valid() && (b.memory == old(b.memory) || fresh(b.memory))
    ensures var d := DebugTable(img, subtrahend);
            && (ok ==> d.Some? && b.Contents() == a + DebugEntry(img, |d.value|) + (rest + d.value))
            && (!ok ==> d.None? || Oversized(|a| + DebugSpace(img) + |rest| + |d.value|))
  {
    hide Store, DebugBytes, LoadTable, Named, ToLe;
    ok := true;
    if img.symbolsPath.Some? {
      ok := EmitDebugTable(b, loadTableOffset, img, subtrahend, a + Zeros(4), rest);
      if ok {
        ghost var d := DebugTable(img, subtrahend).value;
        FillReserved(a, 4, LoadTable(TABLE_DEBUG, |d|));
        assert a + ToLe(LoadTable(TABLE_DEBUG, |d|), 4) + Zeros(0) == a + ToLe(LoadTable(TABLE_DEBUG, |d|), 4);
      }
    } else {
      assert rest + [] == rest;
    }
  }

  /** Everything from the load table headers on. */
  ghost function FileTail(img: Image, fs: seq<Fixup>, d: seq<byte>, pad: seq<byte>): seq<byte>
    requires Sized(img.segments) && FixupsHold(img.segments, fs) && RootFirst(fs)
  {
    LoadTables(img, |PaddedTable(fs)|, |d|) + Laid(img.segments, fs, Chaining(img.header), pad) + d
  }

  lemma TablesParts(img: Image, fs: seq<Fixup>, d: seq<byte>, front: seq<byte>, pad: seq<byte>)
    requires Sized(img.segments) && FixupsHold(img.segments, fs) && RootFirst(fs)
    ensures front + RelocEntry(img, |PaddedTable(fs)|) + DebugEntry(img, |d|)
            + (Laid(img.segments, fs, Chaining(img.header), pad) + d)
            == front + FileTail(img, fs, d, pad)
    ensures |RelocEntry(img, |PaddedTable(fs)|)| + DebugSpace(img) == 4 * NumTables(img)
    ensures |FileTail(img, fs, d, pad)| == 4 * NumTables(img) + |Laid(img.segments, fs, Chaining(img.header), pad)| + |d|
  {
    hide Laid, PaddedTable, FixupsHold, Sized, ToLe, LoadTable;
    var r, e := RelocEntry(img, |PaddedTable(fs)|), DebugEntry(img, |d|);
    assert LoadTables(img, |PaddedTable(fs)|, |d|) == r + e;
    RegroupTail(front, r, e, Laid(img.segments, fs, Chaining(img.header), pad), d);
  }

  lemma RegroupTail(front: seq<byte>, r: seq<byte>, e: seq<byte>, l: seq<byte>, d: seq<byte>)
    ensures front + r + e + (l + d) == front + ((r + e) + l + d)
  {
  }

  /** ToolImageEmitUeLoadTables. */
  method EmitLoadTables(b: Buffer, img: Image, subtrahend: uint32, loadTablesOffset: nat, headersOffset: nat,
                        segmentsOffset: nat, ghost front: seq<byte>, ghost pad: seq<byte>)
    returns (ok: bool)
    requires b.Valid() && Checked(img) && Sized(img.segments)
    requires Stage(front + Zeros(4 * NumTables(img)), img.segments, img.alignment, img.relocs, pad, headersOffset)
    requires Layout(b.Contents(), front + Zeros(4 * NumTables(img)), img.segments, pad)
    requires loadTablesOffset == |front| && segmentsOffset == |front| + 4 * NumTables(img)
    modifies b, b.memory
    ensures b.Valid() && (b.memory == old(b.memory) || fresh(b.memory))
    ensures var p, d := Fixups(img), DebugTable(img, subtrahend);
            && (p.Some? ==> FixupsHold(img.segments, p.value) && RootFirst(p.value))
            && (ok ==> p.Some? && d.Some? && b.Contents() == front + FileTail(img, p.value, d.value, pad))
            && (!ok ==> p.None? || d.None? || Oversized(|front| + |FileTail(img, p.value, d.value, pad)|))
  {
    hide Store, Laid, Layout, Body, Fixups, PaddedTable, FixupsHold, Sized, CheckedSegment, AllHold, Ordered;
    hide CheckedHeader;
    hide DebugTable, HoldsTable, Truncated, FileTail, RelocEntry, DebugEntry, NumTables, Stage;
    var next;
    ok, next := EmitRelocsIfAny(b, img, loadTablesOffset, headersOffset, segmentsOffset, front, pad);
    ghost var d := DebugTable(img, subtrahend);
    if Fixups(img).Some? && d.Some? {
      TablesParts(img, Fixups(img).value, d.value, front, pad);
    }
    if !ok {
      return;
    }
    ghost var fs := Fixups(img).value;
    ghost var laid := Laid(img.segments, fs, Chaining(img.header), pad);
    LaidAligned(img, fs, front, pad, headersOffset);
    TablesParts(img, fs, [], front, pad);
    ok := EmitDebugIfAny(b, img, subtrahend, next, front + RelocEntry(img, |PaddedTable(fs)|), laid);
  }

  lemma LaidAligned(img: Image, fs: seq<Fixup>, front: seq<byte>, pad: seq<byte>, headersOffset: nat)
    requires Stage(front + Zeros(4 * NumTables(img)), img.segments, img.alignment, img.relocs, pad, headersOffset)
    requires FixupsHold(img.segments, fs) && RootFirst(fs) && Sized(img.segments)
    ensures (|front| + 4 * NumTables(img) + |Laid(img.segments, fs, Chaining(img.header), pad)|) % 8 == 0
  {
    hide Laid, Body, HoldsTable, Truncated;
    ModSum(|front| + 4 * NumTables(img) + |Body(img.segments)| + |pad|, |PaddedTable(fs)|, 8);
  }

  // ---------------------------------------------------------------- the file

  /** AlignmentToExponent: the alignment has one bit set, so it equals the power it has in common with itself. */
  method AlignmentToExponent(alignment: nat) returns (index: nat)
    requires IsPow2(alignment) && alignment < TWO_32
    ensures index == Exponent(alignment)
  {
    index := 0;
    ExponentBound(alignment);
    while Pow2(index) != alignment
      invariant 0 <= index <= Exponent(alignment)
      decreases Exponent(alignment) - index
    {
      index := index + 1;
    }
    if index < Exponent(alignment) {
      Pow2Strict(index, Exponent(alignment));
    }
  }

  lemma ExponentBound(alignment: nat)
    requires IsPow2(alignment)
    ensures Pow2(Exponent(alignment)) == alignment
  {
  }

  lemma {:induction false} Pow2Strict(i: nat, j: nat)
    requires i < j
    ensures Pow2(i) < Pow2(j)
    decreases j
  {
    if i < j - 1 {
      Pow2Strict(i, j - 1);
    }
  }

  ghost function Padding(img: Image): (pad: seq<byte>)
    requires Sized(img.segments)
  {
    Zeros(AlignAddend(HEADER_SIZE + SEGMENT_HEADER_SIZE * |img.segments| + 4 * NumTables(img) + |Body(img.segments)|, 8))
  }

  lemma Regroup(h: seq<byte>, s: seq<byte>, l: seq<byte>, m: seq<byte>, z: seq<byte>, t: seq<byte>, d: seq<byte>)
    ensures h + s + l + m + z + t + d == h + s + (l + (m + z + t) + d)
  {
  }

  lemma FileValue(img: Image, subtrahend: uint32, fs: seq<Fixup>, d: seq<byte>)
    requires Emittable(img) && HeaderFits(img) && Fixups(img) == Some(fs) && DebugTable(img, subtrahend) == Some(d)
    requires FixupsHold(img.segments, fs) && WellFormed(fs) && Sized(img.segments)
    ensures var t := Chained(img.segments, fs, Chaining(img.header), 0);
            && Sized(t)
            && FileBytes(img, subtrahend)
               == Some(Prefix(img, |PaddedTable(fs)|, |d|) + Body(t) + Padding(img) + PaddedTable(fs) + d)
  {
    hide Body, Chained, PaddedTable, FixupsHold, CheckedSegment, CheckedRelocs, Truncated, DebugTable, Prefix;
    hide AlignAddend, Plan, WellFormedAt, Sized, Exponent, AllPermitted, NumTables;
    var t := Chained(img.segments, fs, Chaining(img.header), 0);
    SameBodySize(img.segments, t);
    assert PackedSegments(img) == t;
  }

  /** The specification of the file in the order in which it is written. */
  lemma FileParts(img: Image, subtrahend: uint32)
    requires Emittable(img)
    ensures Sized(img.segments)
    ensures FileBytes(img, subtrahend).Some? <==>
              HeaderFits(img) && Fixups(img).Some? && DebugTable(img, subtrahend).Some?
    ensures Fixups(img).Some? ==> FixupsHold(img.segments, Fixups(img).value) && RootFirst(Fixups(img).value)
    ensures FileBytes(img, subtrahend).Some? ==>
              var fs, d := Fixups(img).value, DebugTable(img, subtrahend).value;
              FileBytes(img, subtrahend).value
              == Header16(img) + SegmentTable(img.segments) + FileTail(img, fs, d, Padding(img))
  {
    hide Body, Chained, PaddedTable, FixupsHold, CheckedSegment, CheckedRelocs, Truncated, DebugTable, LoadTables;
    hide Header16;
    hide SegmentTable, Plan, WellFormedAt, Sized, Exponent, AllPermitted, Padding;
    TruncatedSized(img.segments, img.relocs);
    if Fixups(img).Some? {
      FixupsFacts(img);
    }
    if FileBytes(img, subtrahend).Some? {
      var fs, d := Fixups(img).value, DebugTable(img, subtrahend).value;
      FileValue(img, subtrahend, fs, d);
      Regroup(Header16(img), SegmentTable(img.segments), LoadTables(img, |PaddedTable(fs)|, |d|),
              Body(Chained(img.segments, fs, Chaining(img.header), 0)), Padding(img), PaddedTable(fs), d);
    }
  }

  /** The checks before anything is written; the source asserts the last one. */
  method CheckHeader(img: Image) returns (ok: bool)
    requires IsPow2(img.alignment)
    ensures ok && AllPermitted(img.segments) <==> HeaderFits(img)
    ensures ok ==>
              && |img.segments| <= MAX_SEGMENTS && img.hiiData == [] && 12 <= Exponent(img.alignment) <= 27
              && UeMachine(img.header.machine).Some? && SubsystemField(img.header.subsystem) < 8
  {
    hide AllPermitted, Exponent, UeMachine, SubsystemField;
    ok := false;
    if |img.segments| > MAX_SEGMENTS {
      return;
    }
    if |img.hiiData| > 0 {
      return;
    }
    var exponent := AlignmentToExponent(img.alignment);
    if 12 > exponent || exponent > 27 {
      return;
    }
    var machine := UeMachine(img.header.machine);
    if machine.None? {
      return;
    }
    ok := SubsystemField(img.header.subsystem) < 8;
  }

  /** The header, the segment headers and the space for the load tables. */
  method EmitFront(b: Buffer, img: Image) returns (ok: bool, headersOffset: nat, loadTablesOffset: nat)
    requires b.Valid() && b.Contents() == []
    requires IsPow2(img.alignment) && 12 <= Exponent(img.alignment) <= 27 && 0 < |img.segments| <= MAX_SEGMENTS
    requires UeMachine(img.header.machine).Some? && SubsystemField(img.header.subsystem) < 8
    modifies b, b.memory
    ensures b.Valid() && (b.memory == old(b.memory) || fresh(b.memory))
    ensures ok ==>
              && AllPermitted(img.segments)
              && headersOffset == HEADER_SIZE && loadTablesOffset == HEADER_SIZE + SEGMENT_HEADER_SIZE * |img.segments|
              && b.Contents() == Header16(img) + SegmentTable(img.segments) + Zeros(4 * NumTables(img))
    ensures !ok ==>
              !AllPermitted(img.segments)
              || Oversized(HEADER_SIZE + SEGMENT_HEADER_SIZE * |img.segments| + 4 * NumTables(img))
  {
    hide Header16, SegmentTable, AllPermitted, Zeros;
    headersOffset, loadTablesOffset := 0, 0;
    var at := b.Append(Header16(img));
    ok := at != MAX_UINT32;
    if !ok {
      return;
    }
    headersOffset := b.dataSize;
    assert b.Contents() == Header16(img);
    ok := EmitSegmentHeaders(b, img.segments);
    if !ok {
      return;
    }
    loadTablesOffset := b.AppendReserve(4 * NumTables(img));
    ok := loadTablesOffset != MAX_UINT32;
  }

  lemma StageReady(img: Image)
    requires Emittable(img) && HeaderFits(img) && Sized(img.segments)
    ensures var front := Header16(img) + SegmentTable(img.segments);
            Stage(front + Zeros(4 * NumTables(img)), img.segments, img.alignment, img.relocs, Padding(img), HEADER_SIZE)
  {
    hide Header16, SegmentTable, AlignAddend, Body, Truncated, AllPermitted, Storable, CheckedSegment, AllHold;
    hide Ordered, Exponent;
    EmittedStorable(img);
    var h, s, z := Header16(img), SegmentTable(img.segments), Zeros(4 * NumTables(img));
    assert (h + s + z)[HEADER_SIZE..HEADER_SIZE + SEGMENT_HEADER_SIZE * |img.segments|] == s;
  }

  lemma DataSizes(img: Image)
    requires Checked(img)
    ensures forall i :: 0 <= i < |img.segments| ==> |img.segments[i].data| < TWO_32
  {
    forall i | 0 <= i < |img.segments| ensures |img.segments[i].data| < TWO_32 {
      assert CheckedSegment(img.segments, img.alignment, i);
    }
  }

  /** ToolImageEmitUeFile: the buffer ends up holding the specified file, or there is none, or it is too large. */
  method EmitUeFile(b: Buffer, img: Image, subtrahend: uint32) returns (ok: bool)
    requires b.Valid() && b.Contents() == [] && Emittable(img)
    modifies b, b.memory
    ensures b.Valid() && (b.memory == old(b.memory) || fresh(b.memory))
    ensures ok ==> FileBytes(img, subtrahend) == Some(b.Contents())
    ensures !ok ==> FileBytes(img, subtrahend).None? || Oversized(|FileBytes(img, subtrahend).value|)
  {
    hide Header16, SegmentTable, AlignAddend, Body, Truncated, AllPermitted, CheckedSegment, AllHold, Ordered, Exponent;
    hide FileBytes, Fixups, DebugTable, FileTail, FixupsHold, UeMachine, SubsystemField, Stage, NumTables, Sized;
    hide Zeros, HeaderFits;
    FileParts(img, subtrahend);
    DataSizes(img);
    ok := CheckHeader(img);
    if !ok {
      return;
    }
    ghost var front, p, d := Header16(img), Fixups(img), DebugTable(img, subtrahend);
    if FileBytes(img, subtrahend).Some? {
      TablesParts(img, p.value, d.value, front, Padding(img));
    }
    var headersOffset, loadTablesOffset;
    ok, headersOffset, loadTablesOffset := EmitFront(b, img);
    if !ok {
      return;
    }
    front := Header16(img) + SegmentTable(img.segments);
    StageReady(img);
    var segmentsOffset := b.dataSize;
    ok := EmitSegments(b, img.segments);
    if !ok {
      return;
    }
    ok := EmitLoadTables(b, img, subtrahend, loadTablesOffset, headersOffset, segmentsOffset, front, Padding(img));
  }
}
