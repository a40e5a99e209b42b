/** What the UE relocation decoder guarantees for every table, also one no emitter produced. */
module UeScanSound {
  import opened Bytes
  import opened Image
  import opened UeFixups
  import opened UeScan

  predicate Covered(relocs: seq<Reloc>, a: nat) {
    exists k :: 0 <= k < |relocs| && relocs[k].target <= a < relocs[k].End()
  }

  ghost predicate InImage(relocs: seq<Reloc>, size: nat, limit: nat) {
    forall k :: 0 <= k < |relocs| ==>
      RelocSize(relocs[k].ty) != 0 && relocs[k].End() <= size && relocs[k].End() <= limit
  }

  ghost predicate Framed(before: seq<Segment>, s: State) {
    && SameShape(before, s.segs)
    && forall i, j :: 0 <= i < |before| && 0 <= j < |before[i].data| && !Covered(s.relocs, before[i].address + j) ==>
      s.segs[i].data[j] == before[i].data[j]
  }

  /** The relocations found so far are sorted, disjoint, inside the image and behind RelocTarget; nothing else changed. */
  ghost predicate Sound(before: seq<Segment>, s: State) {
    && Loadable(before) && Loadable(s.segs)
    && Ordered(s.relocs)
    && InImage(s.relocs, ImageSize(before), s.target)
    && Framed(before, s)
  }

  lemma CoveredSnoc(relocs: seq<Reloc>, r: Reloc, a: nat)
    ensures Covered(relocs + [r], a) <==> Covered(relocs, a) || r.target <= a < r.End()
  {
    var rs := relocs + [r];
    if Covered(relocs, a) {
      var k :| 0 <= k < |relocs| && relocs[k].target <= a < relocs[k].End();
      assert rs[k] == relocs[k];
    }
    if r.target <= a < r.End() {
      assert rs[|relocs|] == r;
    }
  }

  lemma SnocSound(before: seq<Segment>, s: State, r: Reloc, segs: seq<Segment>)
    requires Sound(before, s) && r.target == s.target && RelocSize(r.ty) != 0 && r.End() <= ImageSize(before)
    requires SameShape(s.segs, segs)
    requires forall i, j :: 0 <= i < |segs| && 0 <= j < |segs[i].data| && !(r.target <= segs[i].address + j < r.End()) ==>
      segs[i].data[j] == s.segs[i].data[j]
    ensures Sound(before, State(s.relocs + [r], segs, r.End()))
  {
    var t := State(s.relocs + [r], segs, r.End());
    SameChecked(s.segs, segs, PAGE_SIZE);
    forall i, j | 0 <= i < |before| && 0 <= j < |before[i].data| && !Covered(t.relocs, before[i].address + j)
      ensures t.segs[i].data[j] == before[i].data[j]
    {
      CoveredSnoc(s.relocs, r, before[i].address + j);
    }
  }

  lemma MoveSound(before: seq<Segment>, s: State, target: nat)
    requires Sound(before, s) && s.target <= target
    ensures Sound(before, s.(target := target))
  {
  }

  lemma ChainStepSound(before: seq<Segment>, s: State, ty: nat)
    requires Sound(before, s) && ChainStep(s, ty).Some?
    ensures Sound(before, ChainStep(s, ty).value.0)
  {
    var n := if ty == RELOC_64 then 8 else 4;
    var a, t := s.target, ChainStep(s, ty).value.0;
    var v := if ty == RELOC_64 then ReadWord(s.segs, a, 8) / 0x1_0000 else ReadWord(s.segs, a, 4) / 0x1000;
    assert t.segs == WriteWord(s.segs, a, n, v);
    StepBounds(s.segs, a, n, v);
    SameChecked(before, s.segs, PAGE_SIZE);
    var r := Reloc(if ty == RELOC_64 then REL_DIR64 else REL_HIGHLOW, a);
    assert t == State(s.relocs + [r], t.segs, r.End());
    WriteSound(before, s, r, v);
  }

  lemma WriteSound(before: seq<Segment>, s: State, r: Reloc, v: nat)
    requires Sound(before, s) && r.target == s.target && RelocSize(r.ty) > 0 && Holds(s.segs, r.target, RelocSize(r.ty))
    requires r.End() <= ImageSize(s.segs) && before != []
    requires ImageSize(before) == ImageSize(s.segs)
    ensures var t := WriteWord(s.segs, r.target, RelocSize(r.ty), v); Sound(before, State(s.relocs + [r], t, r.End()))
  {
    hide Sound, Holds, Store, Locate;
    var t := WriteWord(s.segs, r.target, RelocSize(r.ty), v);
    forall i, j | 0 <= i < |t| && 0 <= j < |t[i].data| && !(r.target <= t[i].address + j < r.End())
      ensures t[i].data[j] == s.segs[i].data[j]
    {
      WriteFrame(s.segs, r.target, RelocSize(r.ty), v, i, j);
    }
    SnocSound(before, s, r, t);
  }

  lemma {:induction false} ChainSound(before: seq<Segment>, s: State, ty: nat)
    requires Sound(before, s) && ScanChain(s, ty).Some?
    ensures Sound(before, ScanChain(s, ty).value)
    decreases TWO_32 - s.target
  {
    hide Sound, ChainStep, Loadable;
    SoundLoadable(before, s);
    ChainStepSound(before, s, ty);
    var (t, hdr) := ChainStep(s, ty).value;
    if hdr / 0x10 != OFFSET_END {
      MoveSound(before, t, t.target + hdr / 0x10);
      ChainSound(before, t.(target := t.target + hdr / 0x10), hdr % 0x10);
    }
  }

  lemma SoundLoadable(before: seq<Segment>, s: State)
    requires Sound(before, s)
    ensures Loadable(before) && Loadable(s.segs) && ImageSize(s.segs) == ImageSize(before)
  {
    SameChecked(before, s.segs, PAGE_SIZE);
  }

  lemma FixupSound(before: seq<Segment>, s: State, ty: nat, chaining: bool)
    requires Sound(before, s) && ScanFixup(s, ty, chaining).Some?
    ensures Sound(before, ScanFixup(s, ty, chaining).value)
  {
    hide Sound, ScanChain, Loadable;
    SoundLoadable(before, s);
    if chaining && ty != RELOC_32_NO_META {
      ChainSound(before, s, ty);
    } else {
      SnocSound(before, s, Reloc(if ty == RELOC_64 then REL_DIR64 else REL_HIGHLOW, s.target), s.segs);
    }
  }

  lemma {:induction false} HeadsSound(table: seq<byte>, before: seq<Segment>, s: State, pos: nat, chaining: bool)
    requires Sound(before, s) && pos + 2 <= |table| && ScanHeads(table, s, pos, chaining).Some?
    ensures Sound(before, ScanHeads(table, s, pos, chaining).value.0)
    decreases |table| - pos
  {
    hide Sound, ScanFixup, Loadable, Load;
    SoundLoadable(before, s);
    var fixup := Load(table, pos, 2);
    FixupSound(before, s, fixup % 0x10, chaining);
    var t := ScanFixup(s, fixup % 0x10, chaining).value;
    if fixup / 0x10 != OFFSET_END {
      MoveSound(before, t, t.target + fixup / 0x10);
      HeadsSound(table, before, t.(target := t.target + fixup / 0x10), pos + 2, chaining);
    }
  }

  lemma {:induction false} RootsSound(table: seq<byte>, before: seq<Segment>, s: State, pos: nat, chaining: bool)
    requires Sound(before, s) && ScanRoots(table, s, pos, chaining).Some?
    ensures Sound(before, ScanRoots(table, s, pos, chaining).value)
    decreases |table| - pos
  {
    hide Sound, ScanHeads, Loadable, Load, AlignUp;
    SoundLoadable(before, s);
    if pos + 6 <= |table| {
      var u := s.(target := s.target + Load(table, pos, 4));
      MoveSound(before, s, u.target);
      HeadsSound(table, before, u, pos + 4, chaining);
      var (t, end) := ScanHeads(table, u, pos + 4, chaining).value;
      RootsSound(table, before, t, AlignUp(end, 4), chaining);
    }
  }

  /**
   * For every table: if the decoder accepts it, the relocations it returns are sorted and disjoint, lie inside the
   * image, and are the only bytes of the segments that changed.
   */
  lemma ScanRelocsSound(table: seq<byte>, segs: seq<Segment>, chaining: bool)
    requires Loadable(segs) && ScanRelocs(table, segs, chaining).Some?
    ensures var r := ScanRelocs(table, segs, chaining).value;
            && Ordered(r.relocs)
            && InImage(r.relocs, ImageSize(segs), r.target)
            && Framed(segs, r)
  {
    assert Sound(segs, State([], segs, 0)) by {
      LoadableEnd(segs, 0);
    }
    RootsSound(table, segs, State([], segs, 0), 0, chaining);
  }
}
