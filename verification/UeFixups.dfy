/** How the UE emitter plans and encodes relocation fixups: roots, heads and in-place chains (UeEmit.c, UeImage.h). */
module UeFixups {
  import opened Bytes
  import opened Image

  const RELOC_32 := 0
  const RELOC_64 := 1
  const RELOC_32_NO_META := 2
  const RELOC_GENERIC_MAX := 3

  /** The largest offset a head or chain entry can hold, and the value that ends it instead. */
  const MAX_OFFSET := 0xFFE
  const OFFSET_END := 0xFFF

  /** Where a fixup is described: by a new root, by another head of the current root, or by the word before it. */
  datatype Kind = Root | Head | Link

  /** One relocation as the emitter sees it: value is the word it found, offset the gap to the fixup before it. */
  datatype Fixup = Fixup(kind: Kind, ty: nat, reloc: Reloc, value: nat, offset: nat) {
    function Size(): nat { RelocSize(reloc.ty) }
  }

  // ---------------------------------------------------------------- packed words

  /** UE_RELOC_FIXUP_32: bits 11:0 the next offset, bits 31:12 the value. */
  function Pack32(value: nat, offset: nat): nat {
    (offset + value * 0x1000) % TWO_32
  }

  /** UE_RELOC_FIXUP_64: bits 3:0 the next type, bits 15:4 the next offset, bits 63:16 the value. */
  function Pack64(value: nat, offset: nat, ty: nat): nat {
    (ty + offset * 0x10 + value * 0x1_0000) % TWO_64
  }

  /** The emitter's test whether a value survives packing: shift it in, shift it out, compare. */
  predicate Fits32(value: nat) { Pack32(value, OFFSET_END) / 0x1000 == value }
  predicate Fits64(value: nat) { Pack64(value, OFFSET_END, 0) / 0x1_0000 == value }

  lemma Fits32Iff(value: nat)
    ensures Fits32(value) <==> value < TWO_20
  {
  }

  lemma Fits64Iff(value: nat)
    ensures Fits64(value) <==> value < TWO_48
  {
  }

  lemma Unpack32(value: nat, offset: nat)
    requires value < TWO_20 && offset <= OFFSET_END
    ensures Pack32(value, offset) < TWO_32
    ensures Pack32(value, offset) / 0x1000 == value
    ensures (Pack32(value, offset) * 0x10 % TWO_32) % 0x1_0000 == offset * 0x10
  {
  }

  /** A common fixup header splits into its offset and type again. */
  lemma SplitHeader(offset: nat, ty: nat)
    requires ty < 0x10
    ensures (offset * 0x10 + ty) / 0x10 == offset && (offset * 0x10 + ty) % 0x10 == ty
  {
  }

  lemma Unpack64(value: nat, offset: nat, ty: nat)
    requires value < TWO_48 && offset <= OFFSET_END && ty < 0x10
    ensures Pack64(value, offset, ty) < TWO_64
    ensures Pack64(value, offset, ty) / 0x1_0000 == value
    ensures Pack64(value, offset, ty) % 0x1_0000 == offset * 0x10 + ty
  {
  }

  // ---------------------------------------------------------------- the plan

  /**
   * One iteration of the emitter: how relocation r is described, given the fixup before it.
   * None is the emitter's failure for a 64-bit value that does not fit into a chained fixup.
   */
  function Next(prev: Option<Fixup>, r: Reloc, value: nat, chaining: bool): (f: Option<Fixup>)
    requires prev.Some? ==> prev.value.reloc.End() <= r.target
  {
    var offset := if prev.Some? then r.target - prev.value.reloc.End() else r.target;
    var near := prev.Some? && offset <= MAX_OFFSET;
    var inChain := chaining && near && prev.value.ty != RELOC_32_NO_META;
    var kind := if near then Head else Root;
    if r.ty == REL_DIR64 then
      if chaining && !Fits64(value) then None
      else Some(Fixup(if inChain && prev.value.ty == RELOC_64 then Link else kind, RELOC_64, r, value, offset))
    else if chaining && !Fits32(value) then
      Some(Fixup(kind, RELOC_32_NO_META, r, value, offset))
    else
      Some(Fixup(if inChain && prev.value.ty == RELOC_32 then Link else kind, RELOC_32, r, value, offset))
  }

  /** The fixups of all relocations, in order. */
  function Plan(segs: seq<Segment>, relocs: seq<Reloc>, chaining: bool): (p: Option<seq<Fixup>>)
    requires AllHold(segs, relocs) && Ordered(relocs)
    ensures p.Some? ==> |p.value| == |relocs| && forall i :: 0 <= i < |relocs| ==> p.value[i].reloc == relocs[i]
  {
    if relocs == [] then Some([])
    else
      var n := |relocs| - 1;
      var p := Plan(segs, relocs[..n], chaining);
      if p.None? then None
      else
        var r := relocs[n];
        assert CheckedReloc(segs, r);
        var f := Next(Prev(p.value, n), r, ReadWord(segs, r.target, RelocSize(r.ty)), chaining);
        if f.None? then None else Some(p.value + [f.value])
  }

  function Prev(fs: seq<Fixup>, k: nat): (p: Option<Fixup>)
    requires k <= |fs|
  {
    if k == 0 then None else Some(fs[k - 1])
  }

  /** What Plan guarantees about a fixup and its predecessor. */
  ghost predicate Step(segs: seq<Segment>, prev: Option<Fixup>, f: Fixup, chaining: bool) {
    && CheckedReloc(segs, f.reloc)
    && (prev.Some? ==> prev.value.reloc.End() <= f.reloc.target)
    && f.value == ReadWord(segs, f.reloc.target, f.Size())
    && Next(prev, f.reloc, f.value, chaining) == Some(f)
  }

  ghost predicate PlannedAt(segs: seq<Segment>, fs: seq<Fixup>, chaining: bool, k: nat)
    requires k < |fs|
  {
    Step(segs, Prev(fs, k), fs[k], chaining)
  }

  ghost predicate Planned(segs: seq<Segment>, fs: seq<Fixup>, chaining: bool) {
    forall k :: 0 <= k < |fs| ==> PlannedAt(segs, fs, chaining, k)
  }

  lemma PlannedSnoc(segs: seq<Segment>, fs: seq<Fixup>, f: Fixup, chaining: bool)
    requires Planned(segs, fs, chaining) && Step(segs, Prev(fs, |fs|), f, chaining)
    ensures Planned(segs, fs + [f], chaining)
  {
    hide Step;
    var gs := fs + [f];
    forall k | 0 <= k < |gs| ensures PlannedAt(segs, gs, chaining, k) {
      assert Prev(gs, k) == Prev(fs, k);
      if k < |fs| {
        assert PlannedAt(segs, fs, chaining, k);
      }
    }
  }

  lemma {:induction false} PlanPlanned(segs: seq<Segment>, relocs: seq<Reloc>, chaining: bool)
    requires AllHold(segs, relocs) && Ordered(relocs) && Plan(segs, relocs, chaining).Some?
    ensures Planned(segs, Plan(segs, relocs, chaining).value, chaining)
    decreases |relocs|
  {
    hide Holds, Next;
    if relocs != [] {
      var n := |relocs| - 1;
      var fs, p := Plan(segs, relocs, chaining).value, Plan(segs, relocs[..n], chaining).value;
      PlanPlanned(segs, relocs[..n], chaining);
      assert CheckedReloc(segs, relocs[n]);
      NextReloc(Prev(p, n), relocs[n], ReadWord(segs, relocs[n].target, RelocSize(relocs[n].ty)), chaining);
      PlannedSnoc(segs, p, fs[n], chaining);
    }
  }

  lemma NextReloc(prev: Option<Fixup>, r: Reloc, value: nat, chaining: bool)
    requires prev.Some? ==> prev.value.reloc.End() <= r.target
    ensures var f := Next(prev, r, value, chaining); f.Some? ==> f.value.reloc == r && f.value.value == value
  {
  }

  // ---------------------------------------------------------------- the words of the image

  /** The fixup after k when it is chained to k. */
  function Chain(fs: seq<Fixup>, k: nat): (next: Option<Fixup>)
    requires k < |fs|
  {
    if k + 1 < |fs| && fs[k + 1].kind.Link? then Some(fs[k + 1]) else None
  }

  predicate Packed(f: Fixup, chaining: bool) { chaining && f.ty != RELOC_32_NO_META }

  function Word(f: Fixup, next: Option<Fixup>): nat {
    var offset := if next.Some? then next.value.offset else OFFSET_END;
    if f.ty == RELOC_64 then Pack64(f.value, offset, if next.Some? then next.value.ty else 0)
    else Pack32(f.value, offset)
  }

  ghost predicate FixupsHold(segs: seq<Segment>, fs: seq<Fixup>) {
    forall k :: 0 <= k < |fs| ==> CheckedReloc(segs, fs[k].reloc)
  }

  /** segs with the chain metadata of the fixups from k on written over their words. */
  ghost function Chained(segs: seq<Segment>, fs: seq<Fixup>, chaining: bool, k: nat): (t: seq<Segment>)
    requires FixupsHold(segs, fs) && k <= |fs|
    ensures SameShape(segs, t)
    decreases |fs| - k
  {
    if k == |fs| then segs
    else
      var t := Chained(segs, fs, chaining, k + 1);
      if Packed(fs[k], chaining) then
        assert CheckedReloc(segs, fs[k].reloc);
        SameLocate(segs, t, fs[k].reloc.target);
        WriteWord(t, fs[k].reloc.target, fs[k].Size(), Word(fs[k], Chain(fs, k)))
      else t
  }

  // ---------------------------------------------------------------- the relocation table

  function HeadEntry(ty: nat, offset: nat): nat { ty + offset * 0x10 }

  predicate RootFirst(fs: seq<Fixup>) { fs != [] ==> fs[0].kind.Root? }

  /** The table of the first n fixups without final padding; a new head patches the offset of the head before it. */
  function Table(fs: seq<Fixup>, n: nat): (t: seq<byte>)
    requires RootFirst(fs) && n <= |fs|
    ensures n > 0 ==> |t| >= 6
    ensures |t| % 2 == 0
  {
    if n == 0 then []
    else
      var f, t := fs[n - 1], Table(fs, n - 1);
      match f.kind
      case Link => t
      case Head => Store(t, |t| - 2, 2, HeadEntry(fs[n - 2].ty, f.offset)) + ToLe(HeadEntry(f.ty, OFFSET_END), 2)
      case Root =>
        EvenPadding(|t|);
        t + Zeros(AlignAddend(|t|, 4)) + ToLe(f.offset, 4) + ToLe(HeadEntry(f.ty, OFFSET_END), 2)
  }

  lemma EvenPadding(n: nat)
    requires n % 2 == 0
    ensures AlignAddend(n, 4) == 0 || AlignAddend(n, 4) == 2
  {
  }

  /** A table costs at most eight bytes per relocation. */
  lemma {:induction false} TableSizeBound(fs: seq<Fixup>, n: nat)
    requires RootFirst(fs) && n <= |fs|
    ensures |Table(fs, n)| <= 8 * n
  {
    hide HeadEntry, ToLe, Store;
    if n > 0 {
      TableSizeBound(fs, n - 1);
      EvenPadding(|Table(fs, n - 1)|);
    }
  }

  lemma {:induction false} TablePrefix(fs: seq<Fixup>, gs: seq<Fixup>, n: nat)
    requires RootFirst(fs) && RootFirst(gs) && n <= |fs| && n <= |gs|
    requires forall k :: 0 <= k < n ==> fs[k] == gs[k]
    ensures Table(fs, n) == Table(gs, n)
  {
    if n > 0 {
      TablePrefix(fs, gs, n - 1);
    }
  }

  /** Where the head entry of fixup k is stored. */
  function HeadAt(fs: seq<Fixup>, k: nat): (p: nat)
    requires RootFirst(fs) && k < |fs|
  {
    |Table(fs, k + 1)| - 2
  }

  /** The first fixup after k that is not chained to its predecessor, or n. */
  function NextHead(fs: seq<Fixup>, k: nat, n: nat): (j: nat)
    requires k < n <= |fs|
    ensures k < j <= n
    ensures j < n ==> !fs[j].kind.Link?
    ensures forall i :: k < i < j ==> fs[i].kind.Link?
    decreases n - k
  {
    if k + 1 == n || !fs[k + 1].kind.Link? then k + 1 else NextHead(fs, k + 1, n)
  }

  function OffsetAfter(fs: seq<Fixup>, k: nat, n: nat): nat
    requires k < n <= |fs|
  {
    var j := NextHead(fs, k, n);
    if j < n && fs[j].kind.Head? then fs[j].offset else OFFSET_END
  }

  /** Chained fixups share one type, and offsets fit their fields. */
  predicate WellFormedAt(fs: seq<Fixup>, k: nat)
    requires k < |fs|
  {
    && fs[k].ty < RELOC_GENERIC_MAX
    && fs[k].offset < TWO_32
    && (fs[k].kind.Link? && k > 0 ==> fs[k].ty == fs[k - 1].ty)
    && (!fs[k].kind.Root? ==> fs[k].offset <= MAX_OFFSET)
  }

  predicate WellFormed(fs: seq<Fixup>) {
    RootFirst(fs) && forall k :: 0 <= k < |fs| ==> WellFormedAt(fs, k)
  }

  lemma {:induction false} LinksAddNothing(fs: seq<Fixup>, k: nat, n: nat)
    requires WellFormed(fs) && k < n <= |fs| && forall i :: k < i < n ==> fs[i].kind.Link?
    ensures Table(fs, n) == Table(fs, k + 1) && fs[n - 1].ty == fs[k].ty
    decreases n
  {
    if k + 1 < n {
      assert WellFormedAt(fs, n - 1);
      LinksAddNothing(fs, k, n - 1);
    }
  }

  lemma {:induction false} TableGrows(fs: seq<Fixup>, m: nat, n: nat)
    requires RootFirst(fs) && m <= n <= |fs|
    ensures |Table(fs, m)| <= |Table(fs, n)|
    ensures m < n && !fs[n - 1].kind.Link? ==> |Table(fs, m)| + 2 <= |Table(fs, n)|
    decreases n
  {
    hide HeadEntry, ToLe, Store, AlignAddend;
    if m < n {
      TableGrows(fs, m, n - 1);
    }
  }

  // What the n-th fixup does to the table: it keeps the bytes of the fixups before it, except for the head it patches.

  lemma TableKeeps(fs: seq<Fixup>, n: nat, p: nat, m: nat)
    requires WellFormed(fs) && 0 < n <= |fs|
    requires p + m <= |Table(fs, n - 1)| - if fs[n - 1].kind.Head? then 2 else 0
    ensures p + m <= |Table(fs, n)|
    ensures Load(Table(fs, n), p, m) == Load(Table(fs, n - 1), p, m)
  {
    hide WellFormedAt, Load, Store, ToLe, AlignAddend;
    var f, t := fs[n - 1], Table(fs, n - 1);
    var e := ToLe(HeadEntry(f.ty, OFFSET_END), 2);
    if f.kind.Head? {
      LoadAppend(Store(t, |t| - 2, 2, HeadEntry(fs[n - 2].ty, f.offset)), e, p, m);
      LoadStoreOther(t, |t| - 2, 2, HeadEntry(fs[n - 2].ty, f.offset), p, m);
    } else if f.kind.Root? {
      var u := Zeros(AlignAddend(|t|, 4)) + ToLe(f.offset, 4) + e;
      assert Table(fs, n) == t + u;
      LoadAppend(t, u, p, m);
    }
  }

  lemma TableEnd(fs: seq<Fixup>, n: nat)
    requires WellFormed(fs) && 0 < n <= |fs| && !fs[n - 1].kind.Link?
    ensures Load(Table(fs, n), |Table(fs, n)| - 2, 2) == HeadEntry(fs[n - 1].ty, OFFSET_END)
  {
    var f, t := fs[n - 1], Table(fs, n - 1);
    var e := HeadEntry(f.ty, OFFSET_END);
    assert WellFormedAt(fs, n - 1);
    Pow256Values();
    if f.kind.Head? {
      LoadLast(Store(t, |t| - 2, 2, HeadEntry(fs[n - 2].ty, f.offset)), e, 2);
    } else {
      LoadLast(t + Zeros(AlignAddend(|t|, 4)) + ToLe(f.offset, 4), e, 2);
    }
  }

  lemma TablePatches(fs: seq<Fixup>, n: nat)
    requires WellFormed(fs) && 0 < n <= |fs| && fs[n - 1].kind.Head?
    ensures |Table(fs, n)| == |Table(fs, n - 1)| + 2
    ensures Load(Table(fs, n), |Table(fs, n - 1)| - 2, 2) == HeadEntry(fs[n - 2].ty, fs[n - 1].offset)
  {
    var f, t := fs[n - 1], Table(fs, n - 1);
    var e := HeadEntry(fs[n - 2].ty, f.offset);
    assert WellFormedAt(fs, n - 1) && WellFormedAt(fs, n - 2);
    Pow256Values();
    LoadStoreSame(t, |t| - 2, 2, e);
    LoadAppend(Store(t, |t| - 2, 2, e), ToLe(HeadEntry(f.ty, OFFSET_END), 2), |t| - 2, 2);
  }

  /** Every head ends up holding its own type and the distance to the next head of its root. */
  lemma {:induction false} HeadStored(fs: seq<Fixup>, k: nat, n: nat)
    requires WellFormed(fs) && k < n <= |fs| && !fs[k].kind.Link?
    ensures HeadAt(fs, k) + 2 <= |Table(fs, n)|
    ensures Load(Table(fs, n), HeadAt(fs, k), 2) == HeadEntry(fs[k].ty, OffsetAfter(fs, k, n))
    decreases n
  {
    hide Table, WellFormedAt, Load;
    TableGrows(fs, k + 1, n);
    if k == n - 1 {
      TableEnd(fs, n);
    } else {
      HeadStored(fs, k, n - 1);
      NextHeadStep(fs, k, n);
      var j := NextHead(fs, k, n - 1);
      if j == n - 1 {
        LinksAddNothing(fs, k, n - 1);
        if fs[n - 1].kind.Head? {
          TablePatches(fs, n);
        } else {
          TableKeeps(fs, n, HeadAt(fs, k), 2);
        }
      } else {
        TableGrows(fs, k + 1, j + 1);
        TableGrows(fs, j + 1, n - 1);
        TableKeeps(fs, n, HeadAt(fs, k), 2);
      }
    }
  }

  lemma NextHeadStep(fs: seq<Fixup>, k: nat, n: nat)
    requires k < n - 1 && n <= |fs|
    ensures NextHead(fs, k, n - 1) < n - 1 ==> NextHead(fs, k, n) == NextHead(fs, k, n - 1)
    ensures NextHead(fs, k, n - 1) == n - 1 ==> NextHead(fs, k, n) == if fs[n - 1].kind.Link? then n else n - 1
  {
    var i, j := NextHead(fs, k, n - 1), NextHead(fs, k, n);
    assert j < n ==> !fs[j].kind.Link?;
    assert i < n - 1 ==> !fs[i].kind.Link?;
  }

  lemma RootEnd(fs: seq<Fixup>, k: nat)
    requires WellFormed(fs) && k < |fs| && fs[k].kind.Root?
    ensures HeadAt(fs, k) == AlignUp(|Table(fs, k)|, 4) + 4
    ensures Load(Table(fs, k + 1), HeadAt(fs, k) - 4, 4) == fs[k].offset
  {
    var f, t := fs[k], Table(fs, k);
    assert WellFormedAt(fs, k);
    Pow256Values();
    LoadWritten(t + Zeros(AlignAddend(|t|, 4)), f.offset, 4, ToLe(HeadEntry(f.ty, OFFSET_END), 2));
  }

  /** Every root is aligned and ends up holding the distance of its first fixup. */
  lemma {:induction false} RootStored(fs: seq<Fixup>, k: nat, n: nat)
    requires WellFormed(fs) && k < n <= |fs| && fs[k].kind.Root?
    ensures HeadAt(fs, k) == AlignUp(|Table(fs, k)|, 4) + 4
    ensures HeadAt(fs, k) + 2 <= |Table(fs, n)|
    ensures Load(Table(fs, n), HeadAt(fs, k) - 4, 4) == fs[k].offset
    decreases n
  {
    hide Table, WellFormedAt, Load, AlignUp;
    RootEnd(fs, k);
    if k < n - 1 {
      RootStored(fs, k, n - 1);
      TableGrows(fs, k + 1, n - 1);
      TableKeeps(fs, n, HeadAt(fs, k) - 4, 4);
      TableGrows(fs, k + 1, n);
    }
  }
}
