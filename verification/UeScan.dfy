/** The UE relocation decoder as functions of the table and the loaded segments (UeScan.c). */
module UeScan {
  import opened Bytes
  import opened Image
  import opened UeFixups

  /** What the decoder carries: the list built so far, the segments it restores in place, and RelocTarget. */
  datatype State = State(relocs: seq<Reloc>, segs: seq<Segment>, target: nat)

  const PAGE_SIZE := 0x1000

  /** Segments as the loader leaves them: from address 0, contiguous, in 4 KiB units. */
  predicate Loadable(segs: seq<Segment>) {
    CheckedSegments(segs, PAGE_SIZE) && segs[0].address == 0
  }

  lemma {:induction false} LoadableEnd(segs: seq<Segment>, i: nat)
    requires Loadable(segs) && i < |segs|
    ensures segs[i].End() <= ImageSize(segs) <= TWO_32 - PAGE_SIZE
  {
    EndAligned(segs, i);
    EndAligned(segs, |segs| - 1);
    EndsGrow(segs, i, |segs| - 1);
  }

  lemma {:induction false} EndAligned(segs: seq<Segment>, i: nat)
    requires Loadable(segs) && i < |segs|
    ensures segs[i].End() % PAGE_SIZE == 0 && segs[i].End() <= TWO_32 - PAGE_SIZE
    decreases i
  {
    assert CheckedSegment(segs, PAGE_SIZE, i);
    if i > 0 {
      EndAligned(segs, i - 1);
    }
  }

  lemma {:induction false} EndsGrow(segs: seq<Segment>, i: nat, j: nat)
    requires Loadable(segs) && i <= j < |segs|
    ensures segs[i].End() <= segs[j].End()
    decreases j
  {
    if i < j {
      assert CheckedSegment(segs, PAGE_SIZE, j);
      EndsGrow(segs, i, j - 1);
    }
  }

  // ---------------------------------------------------------------- chains

  /** One fixup of a chain: restore the word and return the header that says where the next one is. */
  function ChainStep(s: State, ty: nat): (r: Option<(State, nat)>)
    requires Loadable(s.segs)
    ensures r.Some? ==>
      var t := r.value.0;
      && SameShape(s.segs, t.segs) && Loadable(t.segs) && ImageSize(t.segs) == ImageSize(s.segs)
      && s.target < t.target <= ImageSize(s.segs) <= TWO_32 - PAGE_SIZE
      && r.value.1 < 0x1_0000
  {
    var a := s.target;
    if ty == RELOC_64 && Holds(s.segs, a, 8) then
      var info := ReadWord(s.segs, a, 8);
      StepBounds(s.segs, a, 8, info / 0x1_0000);
      Some((State(s.relocs + [Reloc(REL_DIR64, a)], WriteWord(s.segs, a, 8, info / 0x1_0000), a + 8),
            info % 0x1_0000))
    else if ty == RELOC_32 && Holds(s.segs, a, 4) then
      var info := ReadWord(s.segs, a, 4);
      StepBounds(s.segs, a, 4, info / 0x1000);
      // The header of a 32-bit fixup is shifted to look like the common one.
      Some((State(s.relocs + [Reloc(REL_HIGHLOW, a)], WriteWord(s.segs, a, 4, info / 0x1000), a + 4),
            (info * 0x10 % TWO_32) % 0x1_0000))
    else None
  }

  lemma StepBounds(segs: seq<Segment>, a: nat, n: nat, v: nat)
    requires Loadable(segs) && Holds(segs, a, n)
    ensures a + n <= ImageSize(segs) <= TWO_32 - PAGE_SIZE
    ensures Loadable(WriteWord(segs, a, n, v)) && ImageSize(WriteWord(segs, a, n, v)) == ImageSize(segs)
    ensures a < TWO_32
  {
    LoadableEnd(segs, Locate(segs, a));
    SameChecked(segs, WriteWord(segs, a, n, v), PAGE_SIZE);
  }

  /** InternalProcessRelocChain. */
  function ScanChain(s: State, ty: nat): (r: Option<State>)
    requires Loadable(s.segs)
    ensures r.Some? ==>
      && SameShape(s.segs, r.value.segs) && Loadable(r.value.segs) && ImageSize(r.value.segs) == ImageSize(s.segs)
      && r.value.target <= ImageSize(s.segs) <= TWO_32 - PAGE_SIZE
    decreases TWO_32 - s.target
  {
    var step := ChainStep(s, ty);
    if step.None? then None
    else
      var (t, hdr) := step.value;
      if hdr / 0x10 == OFFSET_END then Some(t)
      else
        var r := ScanChain(t.(target := t.target + hdr / 0x10), hdr % 0x10);
        if r.Some? then SameShapeTransitive(s.segs, t.segs, r.value.segs); r else None
  }

  lemma SameShapeTransitive(s: seq<Segment>, t: seq<Segment>, u: seq<Segment>)
    requires SameShape(s, t) && SameShape(t, u)
    ensures SameShape(s, u)
  {
  }

  /** InternalApplyRelocation: a fixup without chain metadata. */
  function ScanApply(s: State, ty: nat): (r: Option<State>)
    requires Loadable(s.segs)
    ensures r.Some? ==>
      && r.value.segs == s.segs
      && r.value.target <= ImageSize(s.segs) <= TWO_32 - PAGE_SIZE
  {
    LoadableEnd(s.segs, 0);
    var size := ImageSize(s.segs);
    var n := if ty == RELOC_64 then 8 else 4;
    if size < s.target || ty >= RELOC_GENERIC_MAX || n > size - s.target then None
    else Some(State(s.relocs + [Reloc(if ty == RELOC_64 then REL_DIR64 else REL_HIGHLOW, s.target)],
                    s.segs, s.target + n))
  }

  function ScanFixup(s: State, ty: nat, chaining: bool): (r: Option<State>)
    requires Loadable(s.segs)
    ensures r.Some? ==>
      && SameShape(s.segs, r.value.segs) && Loadable(r.value.segs)
      && r.value.target <= ImageSize(s.segs) <= TWO_32 - PAGE_SIZE
  {
    if chaining && ty != RELOC_32_NO_META then ScanChain(s, ty) else ScanApply(s, ty)
  }

  // ---------------------------------------------------------------- heads and roots

  /** The heads of one root, from the entry at pos on; the result includes the position after the last one. */
  function ScanHeads(table: seq<byte>, s: State, pos: nat, chaining: bool): (r: Option<(State, nat)>)
    requires Loadable(s.segs) && pos + 2 <= |table|
    ensures r.Some? ==>
      && SameShape(s.segs, r.value.0.segs) && Loadable(r.value.0.segs)
      && r.value.0.target <= TWO_32 - PAGE_SIZE && pos < r.value.1 <= |table|
    decreases |table| - pos
  {
    var fixup := Load(table, pos, 2);
    var f := ScanFixup(s, fixup % 0x10, chaining);
    if f.None? then None
    else if fixup / 0x10 == OFFSET_END then Some((f.value, pos + 2))
    else if pos + 4 > |table| then None
    else ScanHeads(table, f.value.(target := f.value.target + fixup / 0x10), pos + 2, chaining)
  }

  function ScanRoots(table: seq<byte>, s: State, pos: nat, chaining: bool): (r: Option<State>)
    requires Loadable(s.segs)
    ensures r.Some? ==> SameShape(s.segs, r.value.segs)
    decreases |table| - pos
  {
    if pos + 6 > |table| then Some(s)
    else
      var target := s.target + Load(table, pos, 4);
      if target >= TWO_32 then None
      else
        var h := ScanHeads(table, s.(target := target), pos + 4, chaining);
        if h.None? then None else ScanRoots(table, h.value.0, AlignUp(h.value.1, 4), chaining)
  }

  /** ScanUeGetRelocInfo: the relocations and the segments with every chained word restored. */
  function ScanRelocs(table: seq<byte>, segs: seq<Segment>, chaining: bool): (r: Option<State>)
    requires Loadable(segs)
  {
    ScanRoots(table, State([], segs, 0), 0, chaining)
  }

  // ---------------------------------------------------------------- runs of the decoder, as relations

  ghost predicate ChainStepTo(s: State, ty: nat, t: State, hdr: nat) {
    Loadable(s.segs) && ChainStep(s, ty) == Some((t, hdr))
  }

  ghost predicate ChainTo(s: State, ty: nat, r: State) {
    Loadable(s.segs) && ScanChain(s, ty) == Some(r)
  }

  ghost predicate FixupTo(s: State, ty: nat, chaining: bool, r: State) {
    Loadable(s.segs) && ScanFixup(s, ty, chaining) == Some(r)
  }

  ghost predicate HeadsTo(table: seq<byte>, s: State, pos: nat, chaining: bool, r: State, end: nat) {
    Loadable(s.segs) && pos + 2 <= |table| && ScanHeads(table, s, pos, chaining) == Some((r, end))
  }

  ghost predicate RootsTo(table: seq<byte>, s: State, pos: nat, chaining: bool, r: State) {
    Loadable(s.segs) && ScanRoots(table, s, pos, chaining) == Some(r)
  }

  /** u is t moved on by the given offset. */
  ghost predicate MovedOn(t: State, offset: nat, u: State) {
    u == t.(target := t.target + offset)
  }

  lemma ChainStepResult(s: State, ty: nat, r: Reloc, info: nat, value: nat, segs: seq<Segment>, hdr: nat)
    requires Loadable(s.segs) && r.target == s.target && Holds(s.segs, s.target, RelocSize(r.ty))
    requires ReadWord(s.segs, s.target, RelocSize(r.ty)) == info
    requires || (ty == RELOC_64 && r.ty == REL_DIR64 && info / 0x1_0000 == value && info % 0x1_0000 == hdr)
             || (ty == RELOC_32 && r.ty == REL_HIGHLOW && info / 0x1000 == value
                 && (info * 0x10 % TWO_32) % 0x1_0000 == hdr)
    requires segs == WriteWord(s.segs, s.target, RelocSize(r.ty), value)
    ensures ChainStepTo(s, ty, State(s.relocs + [r], segs, r.End()), hdr)
  {
    hide Loadable, Holds, ReadWord, WriteWord, SameShape;
  }

  lemma ChainEnds(s: State, ty: nat, t: State, hdr: nat)
    requires ChainStepTo(s, ty, t, hdr) && hdr / 0x10 == OFFSET_END
    ensures ChainTo(s, ty, t)
  {
    hide ChainStep, Loadable, SameShape, ImageSize;
  }

  lemma ChainGoesOn(s: State, ty: nat, t: State, hdr: nat, offset: nat, u: State, next: nat, r: State)
    requires ChainStepTo(s, ty, t, hdr) && hdr / 0x10 == offset != OFFSET_END && hdr % 0x10 == next
    requires MovedOn(t, offset, u) && ChainTo(u, next, r)
    ensures ChainTo(s, ty, r)
  {
    hide ChainStep, Loadable, SameShape, ImageSize;
  }

  ghost predicate EntryAt(table: seq<byte>, pos: nat, ty: nat, offset: nat) {
    pos + 2 <= |table| && Load(table, pos, 2) % 0x10 == ty && Load(table, pos, 2) / 0x10 == offset
  }

  lemma HeadsEnd(table: seq<byte>, s: State, pos: nat, chaining: bool, ty: nat, t: State, end: nat)
    requires EntryAt(table, pos, ty, OFFSET_END) && FixupTo(s, ty, chaining, t) && end == pos + 2
    ensures HeadsTo(table, s, pos, chaining, t, end)
  {
    hide ScanFixup, Loadable, SameShape, ImageSize, Load;
  }

  lemma HeadsGoOn(table: seq<byte>, s: State, pos: nat, chaining: bool, ty: nat, t: State,
                  offset: nat, u: State, next: nat, r: State, end: nat)
    requires EntryAt(table, pos, ty, offset) && FixupTo(s, ty, chaining, t) && offset != OFFSET_END
    requires MovedOn(t, offset, u) && next == pos + 2 && HeadsTo(table, u, next, chaining, r, end)
    ensures HeadsTo(table, s, pos, chaining, r, end)
  {
    hide ScanFixup, Loadable, SameShape, ImageSize, Load;
  }

  lemma RootsEnd(table: seq<byte>, s: State, pos: nat, chaining: bool)
    requires Loadable(s.segs) && pos + 6 > |table|
    ensures RootsTo(table, s, pos, chaining, s)
  {
  }

  ghost predicate RootAt(table: seq<byte>, pos: nat, offset: nat) {
    pos + 6 <= |table| && Load(table, pos, 4) == offset
  }

  lemma RootsGoOn(table: seq<byte>, s: State, pos: nat, chaining: bool,
                  offset: nat, u: State, heads: nat, t: State, end: nat, next: nat, r: State)
    requires Loadable(s.segs) && RootAt(table, pos, offset) && s.target + offset < TWO_32
    requires MovedOn(s, offset, u) && heads == pos + 4 && HeadsTo(table, u, heads, chaining, t, end)
    requires next == AlignUp(end, 4) && RootsTo(table, t, next, chaining, r)
    ensures RootsTo(table, s, pos, chaining, r)
  {
    hide ScanHeads, Loadable, SameShape, ImageSize, Load, AlignUp;
  }
}
