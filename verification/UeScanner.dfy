/** The UE decoder as it works: walking the table and restoring the words of the segments in place (UeScan.c). */
module UeScanner {
  import opened Bytes
  import opened DynamicBuffer
  import opened Image
  import opened ToolImages
  import opened RelocRecords
  import opened UeFixups
  import opened UeScan
  import opened UeFormat
  import opened UeFile
  import opened UeBody
  import opened UeLoad

  // ---------------------------------------------------------------- chains

  /** Replace the word at an address by its value without chain metadata, and return the metadata. */
  method RestoreWord(image: ToolImage, target: nat, n: nat, shift: nat) returns (ok: bool, info: nat)
    requires image.Valid() && target < TWO_32 && n > 0 && shift > 0
    modifies image.Buffers()
    ensures ok <==> Holds(old(image.Value().segments), target, n)
    ensures !ok ==> image.Value() == old(image.Value())
    ensures ok ==>
              && info == ReadWord(old(image.Value().segments), target, n)
              && image.Value() == old(image.Value()).(segments :=
                   WriteWord(old(image.Value().segments), target, n, info / shift))
  {
    hide Locate, Store, FromLe, Seen;
    ok, info := false, 0;
    var index, offset, remaining := image.GetSegmentByAddress(target);
    if index == |image.segments| || n > remaining {
      return;
    }
    info := FromLe(image.segments[index].data[offset..offset + n]);
    image.WriteUnaligned(index, offset, n, info / shift);
    ok := true;
  }

  /** What every step of the decoder works on: the image whose words it restores and the buffer it collects records in. */
  ghost predicate Decoding(image: ToolImage, b: Buffer, relocs: seq<Reloc>)
    reads image, image.Buffers(), b, b.memory
  {
    image.Valid() && Loadable(image.Value().segments) && Collects(b, relocs) && b.memory !in image.Buffers()
  }

  /** One iteration of InternalProcessRelocChain. */
  method ProcessFixup(image: ToolImage, b: Buffer, ty: nat, target: nat, ghost relocs: seq<Reloc>)
    returns (ok: bool, target': nat, hdr: nat, ghost relocs': seq<Reloc>)
    requires Decoding(image, b, relocs) && target < TWO_32
    modifies image.Buffers(), b, b.memory
    ensures b.memory == old(b.memory) || fresh(b.memory)
    ensures image.Value() == old(image.Value()).(segments := image.Value().segments)
    ensures var r := ChainStep(State(relocs, old(image.Value().segments), target), ty);
            && (ok <==> r.Some? && |relocs| < MAX_RELOCS)
            && (ok ==> r == Some((State(relocs', image.Value().segments, target'), hdr)) && Collects(b, relocs'))
  {
    hide Loadable, Holds, ReadWord, WriteWord, SameShape, Seen, Collects;
    ok, target', hdr, relocs' := false, target, 0, relocs;
    var info, r;
    if ty == RELOC_64 {
      ok, info := RestoreWord(image, target, 8, 0x1_0000);
      if ok {
        r, target', hdr := Reloc(REL_DIR64, target), target + 8, info % 0x1_0000;
      }
    } else if ty == RELOC_32 {
      ok, info := RestoreWord(image, target, 4, 0x1000);
      if ok {
        r, target', hdr := Reloc(REL_HIGHLOW, target), target + 4, (info * 0x10 % TWO_32) % 0x1_0000;
      }
    }
    if ok {
      ok := Push(b, r, relocs);
      relocs' := relocs + [r];
    }
  }

  lemma ScanChainStep(s: State, ty: nat)
    requires Loadable(s.segs)
    ensures ChainStep(s, ty).None? ==> ScanChain(s, ty).None?
    ensures ChainStep(s, ty).Some? ==>
              var (t, hdr) := ChainStep(s, ty).value;
              && Loadable(t.segs) && s.target < t.target <= TWO_32 - PAGE_SIZE && hdr < 0x1_0000
              && ScanChain(s, ty) == if hdr / 0x10 == OFFSET_END then Some(t)
                                     else ScanChain(t.(target := t.target + hdr / 0x10), hdr % 0x10)
  {
    hide ChainStep, Loadable, SameShape;
  }

  /** A chain adds relocations. */
  lemma {:induction false} ScanChainGrows(s: State, ty: nat)
    requires Loadable(s.segs)
    ensures ScanChain(s, ty).Some? ==> |s.relocs| < |ScanChain(s, ty).value.relocs|
    decreases TWO_32 - s.target
  {
    hide ChainStep, ScanChain, Loadable, SameShape;
    ScanChainStep(s, ty);
    if ChainStep(s, ty).Some? {
      var (t, hdr) := ChainStep(s, ty).value;
      ChainStepGrows(s, ty);
      if hdr / 0x10 != OFFSET_END {
        ScanChainGrows(t.(target := t.target + hdr / 0x10), hdr % 0x10);
      }
    }
  }

  lemma ChainStepGrows(s: State, ty: nat)
    requires Loadable(s.segs)
    ensures ChainStep(s, ty).Some? ==> |ChainStep(s, ty).value.0.relocs| == |s.relocs| + 1
  {
    hide Loadable, SameShape, Holds, ReadWord, WriteWord;
  }

  /** InternalProcessRelocChain. */
  method ProcessRelocChain(image: ToolImage, b: Buffer, firstType: nat, chainStart: nat, ghost relocs: seq<Reloc>)
    returns (ok: bool, target: nat, ghost relocs': seq<Reloc>)
    requires Decoding(image, b, relocs) && chainStart < TWO_32
    modifies image.Buffers(), b, b.memory
    ensures b.memory == old(b.memory) || fresh(b.memory)
    ensures image.Value() == old(image.Value()).(segments := image.Value().segments)
    ensures var r := ScanChain(State(relocs, old(image.Value().segments), chainStart), firstType);
            && (ok <==> r.Some? && |r.value.relocs| <= MAX_RELOCS)
            && (ok ==> r == Some(State(relocs', image.Value().segments, target)) && Collects(b, relocs'))
  {
    hide ChainStep, ScanChain, Loadable, SameShape, Seen, Collects;
    relocs', target := relocs, chainStart;
    var ty := firstType;
    ghost var before := image.Value();
    ghost var all := ScanChain(State(relocs, before.segments, chainStart), firstType);
    while true
      invariant image.Value() == before.(segments := image.Value().segments)
      invariant Decoding(image, b, relocs') && target < TWO_32 && (b.memory == old(b.memory) || fresh(b.memory))
      invariant ScanChain(State(relocs', image.Value().segments, target), ty) == all
      decreases TWO_32 - target
    {
      ScanChainStep(State(relocs', image.Value().segments, target), ty);
      ScanChainGrows(State(relocs', image.Value().segments, target), ty);
      var hdr;
      ok, target, hdr, relocs' := ProcessFixup(image, b, ty, target, relocs');
      if !ok {
        return;
      }
      CollectsFew(b, relocs');
      if hdr / 0x10 == OFFSET_END {
        return;
      }
      target, ty := target + hdr / 0x10, hdr % 0x10;
    }
  }

  // ---------------------------------------------------------------- the table

  /** InternalApplyRelocation. */
  method ApplyRelocation(image: ToolImage, b: Buffer, ty: nat, target: nat, ghost relocs: seq<Reloc>)
    returns (ok: bool, target': nat, ghost relocs': seq<Reloc>)
    requires Decoding(image, b, relocs) && target < TWO_32
    modifies b, b.memory
    ensures b.memory == old(b.memory) || fresh(b.memory)
    ensures image.Value() == old(image.Value())
    ensures var r := ScanApply(State(relocs, image.Value().segments, target), ty);
            && (ok <==> r.Some? && |relocs| < MAX_RELOCS)
            && (ok ==> r == Some(State(relocs', image.Value().segments, target')) && Collects(b, relocs'))
  {
    hide CheckedSegment, Collects;
    ok, target', relocs' := false, target, relocs;
    LoadableEnd(image.Value().segments, 0);
    var last := image.segments[|image.segments| - 1];
    var imageSize := last.address + last.data.Length;
    if imageSize < target {
      return;
    }
    var size, relocType;
    if ty == RELOC_32 || ty == RELOC_32_NO_META {
      size, relocType := 4, REL_HIGHLOW;
    } else if ty == RELOC_64 {
      size, relocType := 8, REL_DIR64;
    } else {
      return;
    }
    if size > imageSize - target {
      return;
    }
    ok := Push(b, Reloc(relocType, target), relocs);
    target', relocs' := target + size, relocs + [Reloc(relocType, target)];
  }

  lemma ScanFixupGrows(s: State, ty: nat, chaining: bool)
    requires Loadable(s.segs)
    ensures ScanFixup(s, ty, chaining).Some? ==> |s.relocs| < |ScanFixup(s, ty, chaining).value.relocs|
    ensures ScanFixup(s, ty, chaining).Some? && !(chaining && ty != RELOC_32_NO_META) ==>
              |ScanFixup(s, ty, chaining).value.relocs| == |s.relocs| + 1
  {
    hide ScanChain, Loadable, SameShape;
    ScanChainGrows(s, ty);
  }

  /** The fixup or the chain one head stands for. */
  method ProcessHead(image: ToolImage, b: Buffer, ty: nat, target: nat, chaining: bool, ghost relocs: seq<Reloc>)
    returns (ok: bool, target': nat, ghost relocs': seq<Reloc>)
    requires Decoding(image, b, relocs) && target < TWO_32
    modifies image.Buffers(), b, b.memory
    ensures b.memory == old(b.memory) || fresh(b.memory)
    ensures image.Value() == old(image.Value()).(segments := image.Value().segments)
    ensures var r := ScanFixup(State(relocs, old(image.Value().segments), target), ty, chaining);
            && (ok <==> r.Some? && |r.value.relocs| <= MAX_RELOCS)
            && (ok ==> r == Some(State(relocs', image.Value().segments, target')) && Collects(b, relocs'))
  {
    hide ScanChain, ScanApply, Loadable, SameShape, Seen, Collects;
    ScanFixupGrows(State(relocs, image.Value().segments, target), ty, chaining);
    if chaining && ty != RELOC_32_NO_META {
      ok, target', relocs' := ProcessRelocChain(image, b, ty, target, relocs);
    } else {
      ok, target', relocs' := ApplyRelocation(image, b, ty, target, relocs);
    }
  }

  lemma ScanHeadsStep(table: seq<byte>, s: State, pos: nat, chaining: bool)
    requires Loadable(s.segs) && pos + 2 <= |table|
    ensures var fixup := Load(table, pos, 2);
            var f := ScanFixup(s, fixup % 0x10, chaining);
            && fixup < 0x1_0000
            && (f.Some? ==> Loadable(f.value.segs) && f.value.target <= TWO_32 - PAGE_SIZE)
            && ScanHeads(table, s, pos, chaining)
               == if f.None? then None
                  else if fixup / 0x10 == OFFSET_END then Some((f.value, pos + 2))
                  else if pos + 4 > |table| then None
                  else ScanHeads(table, f.value.(target := f.value.target + fixup / 0x10), pos + 2, chaining)
  {
    hide ScanFixup, Loadable, SameShape;
    Pow256Values();
  }

  /** Heads never lose what their first fixup has found. */
  lemma {:induction false} ScanHeadsGrows(table: seq<byte>, s: State, pos: nat, chaining: bool)
    requires Loadable(s.segs) && pos + 2 <= |table|
    ensures ScanHeads(table, s, pos, chaining).Some? ==>
              var f := ScanFixup(s, Load(table, pos, 2) % 0x10, chaining);
              f.Some? && |s.relocs| < |f.value.relocs| <= |ScanHeads(table, s, pos, chaining).value.0.relocs|
    decreases |table| - pos
  {
    hide ScanFixup, ScanHeads, Loadable, SameShape, Load;
    ScanHeadsStep(table, s, pos, chaining);
    var fixup := Load(table, pos, 2);
    var f := ScanFixup(s, fixup % 0x10, chaining);
    ScanFixupGrows(s, fixup % 0x10, chaining);
    if f.Some? && fixup / 0x10 != OFFSET_END && pos + 4 <= |table| {
      ScanHeadsGrows(table, f.value.(target := f.value.target + fixup / 0x10), pos + 2, chaining);
    }
  }

  /** The heads of one root; `at` is the position after the last one. */
  method ProcessHeads(image: ToolImage, b: Buffer, table: seq<byte>, start: nat, target: nat, chaining: bool, ghost relocs: seq<Reloc>)
    returns (ok: bool, target': nat, at: nat, ghost relocs': seq<Reloc>)
    requires Decoding(image, b, relocs) && target < TWO_32 && start + 2 <= |table|
    modifies image.Buffers(), b, b.memory
    ensures b.memory == old(b.memory) || fresh(b.memory)
    ensures image.Value() == old(image.Value()).(segments := image.Value().segments)
    ensures var r := ScanHeads(table, State(relocs, old(image.Value().segments), target), start, chaining);
            && (ok <==> r.Some? && |r.value.0.relocs| <= MAX_RELOCS)
            && (ok ==> r == Some((State(relocs', image.Value().segments, target'), at)) && Collects(b, relocs'))
  {
    hide ScanFixup, ScanHeads, Loadable, SameShape, Seen, Load, Collects;
    target', at, relocs' := target, start, relocs;
    ghost var before := image.Value();
    ghost var all := ScanHeads(table, State(relocs, before.segments, target), start, chaining);
    while true
      invariant image.Value() == before.(segments := image.Value().segments)
      invariant Decoding(image, b, relocs') && target' < TWO_32 && at + 2 <= |table|
      invariant b.memory == old(b.memory) || fresh(b.memory)
      invariant ScanHeads(table, State(relocs', image.Value().segments, target'), at, chaining) == all
      decreases |table| - at
    {
      ScanHeadsStep(table, State(relocs', image.Value().segments, target'), at, chaining);
      ScanHeadsGrows(table, State(relocs', image.Value().segments, target'), at, chaining);
      var fixup := Load(table, at, 2);
      at := at + 2;
      ok, target', relocs' := ProcessHead(image, b, fixup % 0x10, target', chaining, relocs');
      if !ok {
        return;
      }
      CollectsFew(b, relocs');
      if fixup / 0x10 == OFFSET_END {
        return;
      }
      target' := target' + fixup / 0x10;
      if at + 2 > |table| {
        ok := false;
        return;
      }
    }
  }

  lemma ScanRootsStep(table: seq<byte>, s: State, pos: nat, chaining: bool)
    requires Loadable(s.segs) && pos + 6 <= |table|
    ensures var target := s.target + Load(table, pos, 4);
            && (target >= TWO_32 ==> ScanRoots(table, s, pos, chaining) == None)
            && (target < TWO_32 ==>
                  var h := ScanHeads(table, s.(target := target), pos + 4, chaining);
                  && (h.Some? ==> Loadable(h.value.0.segs) && h.value.0.target < TWO_32 && pos + 4 < h.value.1)
                  && ScanRoots(table, s, pos, chaining)
                     == if h.None? then None else ScanRoots(table, h.value.0, AlignUp(h.value.1, 4), chaining))
  {
    hide ScanHeads, Loadable, SameShape, Load, AlignAddend;
  }

  lemma {:induction false} ScanRootsGrows(table: seq<byte>, s: State, pos: nat, chaining: bool)
    requires Loadable(s.segs)
    ensures ScanRoots(table, s, pos, chaining).Some? ==> |s.relocs| <= |ScanRoots(table, s, pos, chaining).value.relocs|
    decreases |table| - pos
  {
    hide ScanHeads, ScanRoots, Loadable, SameShape, Load, AlignAddend;
    if pos + 6 > |table| {
      RootsDone(table, s, pos, chaining);
    } else {
      ScanRootsStep(table, s, pos, chaining);
      var target := s.target + Load(table, pos, 4);
      if target < TWO_32 {
        var h := ScanHeads(table, s.(target := target), pos + 4, chaining);
        ScanHeadsGrows(table, s.(target := target), pos + 4, chaining);
        if h.Some? {
          ScanRootsGrows(table, h.value.0, AlignUp(h.value.1, 4), chaining);
        }
      }
    }
  }

  /** The rest of the table never loses what the first root has found. */
  lemma RootsKeep(table: seq<byte>, s: State, pos: nat, chaining: bool)
    requires Loadable(s.segs) && pos + 6 <= |table| && s.target + Load(table, pos, 4) < TWO_32
    ensures var h := ScanHeads(table, s.(target := s.target + Load(table, pos, 4)), pos + 4, chaining);
            ScanRoots(table, s, pos, chaining).Some? ==>
              h.Some? && |h.value.0.relocs| <= |ScanRoots(table, s, pos, chaining).value.relocs|
  {
    hide ScanHeads, ScanRoots, Loadable, SameShape, Load, AlignAddend;
    ScanRootsStep(table, s, pos, chaining);
    var h := ScanHeads(table, s.(target := s.target + Load(table, pos, 4)), pos + 4, chaining);
    if h.Some? {
      ScanRootsGrows(table, h.value.0, AlignUp(h.value.1, 4), chaining);
    }
  }

  /** One root with its heads: what remains to be decoded is decoded from the new state, or the table is refused. */
  method ProcessRoot(image: ToolImage, b: Buffer, table: seq<byte>, start: nat, target: nat, chaining: bool, ghost relocs: seq<Reloc>)
    returns (ok: bool, target': nat, at: nat, ghost relocs': seq<Reloc>)
    requires Decoding(image, b, relocs) && target < TWO_32 && start + 6 <= |table|
    modifies image.Buffers(), b, b.memory
    ensures b.memory == old(b.memory) || fresh(b.memory)
    ensures image.Value() == old(image.Value()).(segments := image.Value().segments)
    ensures var r := ScanRoots(table, State(relocs, old(image.Value().segments), target), start, chaining);
            && (ok ==>
                  && Loadable(image.Value().segments) && Collects(b, relocs') && target' < TWO_32 && start < at
                  && ScanRoots(table, State(relocs', image.Value().segments, target'), at, chaining) == r)
            && (!ok ==> r.None? || |r.value.relocs| > MAX_RELOCS)
  {
    hide ScanHeads, ScanRoots, Loadable, SameShape, Seen, Load, AlignAddend, Collects;
    ghost var s := State(relocs, image.Value().segments, target);
    ScanRootsStep(table, s, start, chaining);
    ok, target', at, relocs' := false, target + Load(table, start, 4), start, relocs;
    if target' >= TWO_32 {
      return;
    }
    RootsKeep(table, s, start, chaining);
    ok, target', at, relocs' := ProcessHeads(image, b, table, start + 4, target', chaining, relocs);
    at := AlignUp(at, 4);
  }

  /** ScanUeGetRelocInfo for a table that is not empty; it also fails if the buffer cannot hold the relocations. */
  method GetRelocInfo(image: ToolImage, table: seq<byte>, chaining: bool) returns (ok: bool)
    requires image.Valid() && Loadable(image.Value().segments)
    modifies image`relocs, image.Buffers()
    ensures var r := ScanRelocs(table, old(image.Value().segments), chaining);
            && (ok <==> r.Some? && |r.value.relocs| <= MAX_RELOCS)
            && (ok ==> image.Value() == old(image.Value()).(segments := r.value.segs, relocs := r.value.relocs))
  {
    hide ScanRoots, Loadable, SameShape, Seen, Collects;
    var b := NewRecords();
    ghost var relocs: seq<Reloc> := [];
    var target: nat, at: nat := 0, 0;
    ghost var before := image.Value();
    ghost var all := ScanRoots(table, State([], before.segments, 0), 0, chaining);
    while at + 6 <= |table|
      invariant image.Value() == before.(segments := image.Value().segments)
      invariant fresh(b) && fresh(b.memory) && Decoding(image, b, relocs) && target < TWO_32
      invariant ScanRoots(table, State(relocs, image.Value().segments, target), at, chaining) == all
      decreases |table| - at
    {
      ok, target, at, relocs := ProcessRoot(image, b, table, at, target, chaining, relocs);
      if !ok {
        return;
      }
    }
    RootsDone(table, State(relocs, image.Value().segments, target), at, chaining);
    CollectsFew(b, relocs);
    image.relocs := Dump(b, relocs);
    ok := true;
  }

  lemma RootsDone(table: seq<byte>, s: State, pos: nat, chaining: bool)
    requires Loadable(s.segs) && pos + 6 > |table|
    ensures ScanRoots(table, s, pos, chaining) == Some(s)
  {
  }

  // ---------------------------------------------------------------- the segments

  /** UeLoadImage for one segment: copy the stored bytes, zero the rest. */
  method LoadSegment(stored: seq<byte>, size: nat) returns (data: array<byte>)
    requires |stored| <= size
    ensures fresh(data) && data[..] == Padded(stored, size)
  {
    data := new byte[size](_ => 0);
    var i := 0;
    while i < |stored|
      invariant 0 <= i <= |stored|
      invariant forall j :: 0 <= j < size ==> data[j] == if j < i then stored[j] else 0
    {
      data[i] := stored[i];
      i := i + 1;
    }
  }

  /** The segment names as 8-byte fields, if the file has any. */
  function NameOf(names: Option<seq<byte>>, i: nat): (name: Option<seq<byte>>)
    requires names.Some? ==> 8 * (i + 1) <= |names.value|
  {
    if names.None? then None else Some(CString(names.value[8 * i..8 * (i + 1)]))
  }

  lemma {:induction false} NameAt(segs: seq<Segment>, fields: seq<byte>, i: nat)
    requires |fields| == 8 * |segs| && i < |segs|
    ensures WithNames(segs, fields)[i] == segs[i].(name := NameOf(Some(fields), i))
    decreases |segs|
  {
    hide CString;
    if i == 0 {
      assert fields[..8] == fields[8 * 0..8 * (0 + 1)];
    } else {
      NameAt(segs[1..], fields[8..], i - 1);
      assert fields[8..][8 * (i - 1)..8 * i] == fields[8 * i..8 * (i + 1)];
    }
  }

  lemma LoadEntriesStep(es: seq<Entry>, bytes: seq<byte>, alignment: nat, i: nat, at: nat, address: uint32)
    requires i < |es| && at <= |bytes|
    requires VerifyEntries(es[i..], alignment, address).Some? && StoredSize(es[i..]) <= |bytes[at..]|
    ensures var e := es[i];
            && e.fileSize <= e.size && at + e.fileSize <= |bytes| && address + e.size < TWO_32
            && VerifyEntries(es[i + 1..], alignment, address + e.size).Some?
            && StoredSize(es[i + 1..]) <= |bytes[at + e.fileSize..]|
            && LoadEntries(es[i..], bytes[at..], alignment, address)
               == [EntrySegment(e, bytes[at..at + e.fileSize], address)]
                  + LoadEntries(es[i + 1..], bytes[at + e.fileSize..], alignment, address + e.size)
  {
    hide EntrySegment;
    var e := es[i];
    assert es[i..][1..] == es[i + 1..] && bytes[at..][e.fileSize..] == bytes[at + e.fileSize..];
    assert bytes[at..][..e.fileSize] == bytes[at..at + e.fileSize];
  }

  /** Segments with the names of the file. */
  ghost predicate NamedFrom(segs: seq<Segment>, bare: seq<Segment>, names: Option<seq<byte>>)
    requires names.Some? ==> 8 * |bare| <= |names.value|
  {
    |segs| == |bare| && forall k :: 0 <= k < |segs| ==> segs[k] == bare[k].(name := NameOf(names, k))
  }

  /** ScanUeGetSegmentInfo: every segment gets a buffer of its own. */
  method GetSegmentInfo(es: seq<Entry>, bytes: seq<byte>, names: Option<seq<byte>>, ghost alignment: nat)
    returns (refs: seq<SegmentRef>)
    requires VerifyEntries(es, alignment, 0).Some? && StoredSize(es) <= |bytes|
    requires names.Some? ==> |names.value| == 8 * |es|
    ensures forall i :: 0 <= i < |refs| ==> fresh(refs[i].data)
    ensures forall i, j :: 0 <= i < j < |refs| ==> refs[i].data != refs[j].data
    ensures NamedFrom(Seen(refs), LoadEntries(es, bytes, alignment, 0), names)
  {
    hide VerifyEntries, StoredSize, LoadEntries, NameOf, Padded, Seen, NamedFrom;
    refs := [];
    NamedNothing(names);
    var i: nat, at: nat, address: nat := 0, 0, 0;
    ghost var bare: seq<Segment> := [];
    assert es[0..] == es && bytes[0..] == bytes;
    assert [] + LoadEntries(es, bytes, alignment, 0) == LoadEntries(es, bytes, alignment, 0);
    while i < |es|
      invariant 0 <= i <= |es| && at <= |bytes| && 0 <= address < TWO_32
      invariant VerifyEntries(es[i..], alignment, address).Some? && StoredSize(es[i..]) <= |bytes[at..]|
      invariant |bare| == i && bare + LoadEntries(es[i..], bytes[at..], alignment, address)
                == LoadEntries(es, bytes, alignment, 0)
      invariant forall k :: 0 <= k < |refs| ==> fresh(refs[k].data)
      invariant forall j, k :: 0 <= j < k < |refs| ==> refs[j].data != refs[k].data
      invariant NamedFrom(Seen(refs), bare, names)
    {
      LoadEntriesStep(es, bytes, alignment, i, at, address);
      var e := es[i];
      var p := e.permissions;
      var data := LoadSegment(bytes[at..at + e.fileSize], e.size);
      var r := SegmentRef(address, data, p != 0, p == 2, p == 0 || p == 1, NameOf(names, i), 0);
      ghost var s := EntrySegment(e, bytes[at..at + e.fileSize], address);
      NamedSnoc(refs, r, bare, s, names);
      assert bare + ([s] + LoadEntries(es[i + 1..], bytes[at + e.fileSize..], alignment, address + e.size))
          == (bare + [s]) + LoadEntries(es[i + 1..], bytes[at + e.fileSize..], alignment, address + e.size);
      bare, refs := bare + [s], refs + [r];
      at, address, i := at + e.fileSize, address + e.size, i + 1;
    }
    NoEntries(es[i..], bytes[at..], alignment, address);
    assert bare + [] == bare;
  }

  lemma NamedNothing(names: Option<seq<byte>>)
    ensures NamedFrom(Seen([]), [], names)
  {
  }

  lemma NamedSnoc(refs: seq<SegmentRef>, r: SegmentRef, bare: seq<Segment>, s: Segment, names: Option<seq<byte>>)
    requires names.Some? ==> 8 * (|bare| + 1) <= |names.value|
    requires NamedFrom(Seen(refs), bare, names) && See(r) == s.(name := NameOf(names, |bare|))
    ensures NamedFrom(Seen(refs + [r]), bare + [s], names)
  {
    hide NameOf, Seen;
    SeenSnoc(refs, r);
  }

  lemma NoEntries(es: seq<Entry>, bytes: seq<byte>, alignment: nat, address: uint32)
    requires es == [] && VerifyEntries(es, alignment, address).Some? && StoredSize(es) <= |bytes|
    ensures LoadEntries(es, bytes, alignment, address) == []
  {
  }

  lemma NamedAll(segs: seq<Segment>, bare: seq<Segment>, names: Option<seq<byte>>)
    requires (names.Some? ==> |names.value| == 8 * |bare|) && NamedFrom(segs, bare, names)
    requires forall k :: 0 <= k < |bare| ==> bare[k].name == None
    ensures segs == if names.Some? then WithNames(bare, names.value) else bare
  {
    hide WithNames, CString;
    if names.Some? {
      forall k | 0 <= k < |bare| ensures segs[k] == WithNames(bare, names.value)[k] {
        NameAt(bare, names.value, k);
      }
    }
  }

  lemma {:induction false} LoadedNameless(es: seq<Entry>, bytes: seq<byte>, alignment: nat, address: uint32, k: nat)
    requires VerifyEntries(es, alignment, address).Some? && StoredSize(es) <= |bytes| && k < |es|
    ensures LoadEntries(es, bytes, alignment, address)[k].name == None
    decreases |es|
  {
    if k > 0 {
      LoadedNameless(es[1..], bytes[es[0].fileSize..], alignment, address + es[0].size, k - 1);
    }
  }

  /** UeGetSegmentNames; None overall reports a corrupt debug table. */
  method GetSegmentNames(file: seq<byte>, c: Context) returns (names: Option<Option<seq<byte>>>)
    requires ParseContext(file) == Some(c)
    ensures names.Some? <==> LoadSegments(file, c).Some?
    ensures names.Some? && names.value.Some? ==> |names.value.value| == 8 * |c.entries|
    ensures names.Some? ==>
              var loaded := LoadEntries(c.entries, file[c.bodyAt..], c.alignment, 0);
              LoadSegments(file, c).value
              == if names.value.Some? then WithNames(loaded, names.value.value) else loaded
  {
    hide ParseContext, WithNames, LoadEntries, VerifyEntries, VerifyTables, StoredSize, FindDebug, Loadable;
    var d := FindDebug(c.tables, c.loadAt);
    if d.None? {
      return Some(None);
    }
    FindDebugBounds(c.tables, -1, c.loadAt);
    var (at, size) := d.value;
    if !DebugFits(file, at, size, |c.entries|) {
      return None;
    }
    var start := at + file[at + 1] + 3;
    names := Some(Some(file[start..start + 8 * |c.entries|]));
  }

  method BuildSegments(file: seq<byte>, c: Context) returns (ok: bool, refs: seq<SegmentRef>)
    requires ParseContext(file) == Some(c)
    ensures ok <==> LoadSegments(file, c).Some?
    ensures forall i :: 0 <= i < |refs| ==> fresh(refs[i].data)
    ensures forall i, j :: 0 <= i < j < |refs| ==> refs[i].data != refs[j].data
    ensures ok ==> Seen(refs) == LoadSegments(file, c).value
  {
    hide ParseContext, WithNames, LoadEntries, VerifyEntries, VerifyTables, StoredSize, LoadSegments, NamedFrom, Seen;
    var names := GetSegmentNames(file, c);
    if names.None? {
      return false, [];
    }
    refs := GetSegmentInfo(c.entries, file[c.bodyAt..], names.value, c.alignment);
    ghost var bare := LoadEntries(c.entries, file[c.bodyAt..], c.alignment, 0);
    forall k | 0 <= k < |bare| ensures bare[k].name == None {
      LoadedNameless(c.entries, file[c.bodyAt..], c.alignment, 0, k);
    }
    NamedAll(Seen(refs), bare, names.value);
    ok := true;
  }

  /** The file does not scan, or has more relocations than the buffer holds. */
  ghost predicate Refused(file: seq<byte>) {
    ScanUe(file).None? || |ScanUe(file).value.relocs| > MAX_RELOCS
  }

  /** A relocation table although relocations are stripped, or a table that does not decode or decodes to too many. */
  lemma ScanFails(file: seq<byte>, c: Context)
    requires ParseContext(file) == Some(c)
    ensures LoadSegments(file, c).None? || LoadSymbolsPath(file, c).None? ==> Refused(file)
    ensures c.tables != [] && TableId(c.tables[0]) == TABLE_RELOC && c.relocsStripped ==> Refused(file)
    ensures LoadSegments(file, c).Some? && RelocTableSize(c) > 0 ==>
              && c.loadAt + RelocTableSize(c) <= |file|
              && var r := ScanRelocs(file[c.loadAt..c.loadAt + RelocTableSize(c)], LoadSegments(file, c).value, c.chained);
                 r.None? || |r.value.relocs| > MAX_RELOCS ==> Refused(file)
  {
    hide ParseContext, LoadSegments, LoadSymbolsPath, ScanRelocs, Loadable, VerifyEntries, StoredSize, TableId;
    hide TableSize;
    TableInFile(file, c);
  }

  lemma TableInFile(file: seq<byte>, c: Context)
    requires ParseContext(file) == Some(c)
    ensures c.loadAt + RelocTableSize(c) <= |file|
  {
    hide ParseContext, TableId, TableSize, VerifyEntries, StoredSize;
  }

  lemma ScanSucceeds(file: seq<byte>, c: Context)
    requires ParseContext(file) == Some(c) && LoadSegments(file, c).Some? && LoadSymbolsPath(file, c).Some?
    requires !(c.tables != [] && TableId(c.tables[0]) == TABLE_RELOC && c.relocsStripped)
    requires c.loadAt + RelocTableSize(c) <= |file|
    ensures var segs, path := LoadSegments(file, c).value, LoadSymbolsPath(file, c).value;
            var r := ScanRelocs(file[c.loadAt..c.loadAt + RelocTableSize(c)], segs, c.chained);
            && (RelocTableSize(c) == 0 ==>
                  && ScanUe(file) == Some(Image(c.header, c.alignment, segs, c.relocsStripped, [], [], path))
                  && !Refused(file))
            && (RelocTableSize(c) > 0 && r.Some? ==>
                  && ScanUe(file) == Some(Image(c.header, c.alignment, r.value.segs, c.relocsStripped, r.value.relocs, [], path))
                  && (Refused(file) <==> |r.value.relocs| > MAX_RELOCS))
  {
    hide ParseContext, LoadSegments, LoadSymbolsPath, ScanRelocs, Loadable, VerifyEntries, StoredSize, TableId;
    hide TableSize;
    hide VerifyTables;
  }

  /** The relocations of a file whose segments have been read. */
  method LoadRelocs(image: ToolImage, file: seq<byte>, c: Context) returns (ok: bool)
    requires ParseContext(file) == Some(c) && image.Valid() && LoadSegments(file, c).Some?
    requires image.Value() == Image(c.header, c.alignment, LoadSegments(file, c).value, c.relocsStripped, [], [], None)
    modifies image`relocs, image.Buffers()
    ensures !ok ==> Refused(file)
    ensures ok && LoadSymbolsPath(file, c).Some? ==>
              !Refused(file) && ScanUe(file) == Some(image.Value().(symbolsPath := LoadSymbolsPath(file, c).value))
  {
    hide ParseContext, LoadSegments, LoadSymbolsPath, ScanRelocs, ScanUe, Loadable, TableId, RelocTableSize, Seen, Refused;
    hide VerifyEntries, VerifyTables, StoredSize;
    ScanFails(file, c);
    TableInFile(file, c);
    if LoadSymbolsPath(file, c).Some? && !(c.tables != [] && TableId(c.tables[0]) == TABLE_RELOC && c.relocsStripped) {
      ScanSucceeds(file, c);
    }
    ok := !(c.tables != [] && TableId(c.tables[0]) == TABLE_RELOC && c.relocsStripped);
    var size := RelocTableSize(c);
    if ok && size > 0 {
      ok := GetRelocInfo(image, file[c.loadAt..c.loadAt + size], c.chained);
    }
  }

  /** ToolContextConstructUefiImage on a UE file; null reports failure, also for more relocations than the buffer holds. */
  method ScanUeFile(file: seq<byte>) returns (image: ToolImage?)
    ensures image == null <==> Refused(file)
    ensures image != null ==> fresh(image) && image.Valid() && image.Value() == ScanUe(file).value
  {
    hide ParseContext, LoadSegments, LoadSymbolsPath, ScanRelocs, ScanUe, Loadable, TableId, RelocTableSize, Seen, Refused;
    hide VerifyEntries, VerifyTables, StoredSize;
    var pc := ParseContext(file);
    if pc.None? {
      NoContext(file);
      return null;
    }
    var c := pc.value;
    ScanFails(file, c);
    var ok, refs := BuildSegments(file, c);
    if !ok {
      return null;
    }
    image := new ToolImage(c.header, c.alignment, refs, c.relocsStripped);
    ok := LoadRelocs(image, file, c);
    if !ok {
      return null;
    }
    var path := LoadSymbolsPath(file, c);
    if path.None? {
      return null;
    }
    image.symbolsPath := path.value;
  }

  lemma NoContext(file: seq<byte>)
    requires ParseContext(file).None?
    ensures Refused(file)
  {
  }
}
