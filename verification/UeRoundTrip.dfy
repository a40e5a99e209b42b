/** The UE relocation table and chains decode to exactly the relocations and bytes they were made from. */
module UeRoundTrip {
  import opened Bytes
  import opened Image
  import opened UeFixups
  import opened UeChains
  import opened UeScan

  ghost function RelocsOf(fs: seq<Fixup>, k: nat): (r: seq<Reloc>)
    requires k <= |fs|
    ensures |r| == k && forall i :: 0 <= i < k ==> r[i] == fs[i].reloc
  {
    seq(k, i requires 0 <= i < k => fs[i].reloc)
  }

  lemma RelocsSnoc(fs: seq<Fixup>, k: nat)
    requires k < |fs|
    ensures RelocsOf(fs, k + 1) == RelocsOf(fs, k) + [fs[k].reloc]
  {
  }

  ghost function EndOf(fs: seq<Fixup>, k: nat): nat
    requires k <= |fs|
  {
    if k == 0 then 0 else fs[k - 1].reloc.End()
  }

  /** The decoder's state when the first k fixups are decoded and the rest are still packed. */
  ghost function Decoded(segs: seq<Segment>, fs: seq<Fixup>, chaining: bool, k: nat, target: nat): State
    requires FixupsHold(segs, fs) && k <= |fs|
  {
    State(RelocsOf(fs, k), Chained(segs, fs, chaining, k), target)
  }

  lemma Retarget(segs: seq<Segment>, fs: seq<Fixup>, chaining: bool, k: nat)
    requires FixupsHold(segs, fs) && k < |fs| && Facts(fs, chaining, k)
    ensures MovedOn(Decoded(segs, fs, chaining, k, EndOf(fs, k)), fs[k].offset,
                    Decoded(segs, fs, chaining, k, fs[k].reloc.target))
  {
  }

  /** What the lemmas below assume: a planned list over loaded segments. */
  ghost predicate Encoded(segs: seq<Segment>, fs: seq<Fixup>, chaining: bool) {
    Loadable(segs) && Planned(segs, fs, chaining) && FixupsHold(segs, fs) && WellFormed(fs)
  }

  lemma DecodedLoadable(segs: seq<Segment>, fs: seq<Fixup>, chaining: bool, k: nat)
    requires Encoded(segs, fs, chaining) && k <= |fs|
    ensures Loadable(Chained(segs, fs, chaining, k))
    ensures ImageSize(Chained(segs, fs, chaining, k)) == ImageSize(segs)
  {
    SameChecked(segs, Chained(segs, fs, chaining, k), PAGE_SIZE);
  }

  // ---------------------------------------------------------------- chains

  /** The chain header the decoder finds at fixup k. */
  ghost function HeaderAt(fs: seq<Fixup>, k: nat): (h: nat)
    requires k < |fs|
  {
    var next := Chain(fs, k);
    if next.Some? then next.value.offset * 0x10 + fs[k].ty else OFFSET_END * 0x10
  }

  lemma ChainStepDecodes(segs: seq<Segment>, fs: seq<Fixup>, chaining: bool, k: nat)
    requires Encoded(segs, fs, chaining) && k < |fs| && Packed(fs[k], chaining)
    ensures ChainStepTo(Decoded(segs, fs, chaining, k, fs[k].reloc.target), fs[k].ty,
                        Decoded(segs, fs, chaining, k + 1, EndOf(fs, k + 1)), HeaderAt(fs, k))
  {
    hide Planned, Word, Chained, Loadable, WellFormed;
    DecodedLoadable(segs, fs, chaining, k);
    PlannedFacts(segs, fs, chaining, k);
    if k + 1 < |fs| {
      PlannedFacts(segs, fs, chaining, k + 1);
    }
    UndoFixup(segs, fs, chaining, k);
    WordBounds(fs, chaining, k);
    RelocsSnoc(fs, k);
    hide RelocsOf, Holds, SameShape, ReadWord, WriteWord, ChainStepTo;
    ChainStepResult(Decoded(segs, fs, chaining, k, fs[k].reloc.target), fs[k].ty, fs[k].reloc,
                    Word(fs[k], Chain(fs, k)), fs[k].value, Chained(segs, fs, chaining, k + 1), HeaderAt(fs, k));
  }

  lemma ChainLast(segs: seq<Segment>, fs: seq<Fixup>, chaining: bool, k: nat)
    requires Encoded(segs, fs, chaining) && k < |fs| && Packed(fs[k], chaining) && Chain(fs, k).None?
    ensures ChainTo(Decoded(segs, fs, chaining, k, fs[k].reloc.target), fs[k].ty,
                    Decoded(segs, fs, chaining, k + 1, EndOf(fs, k + 1)))
  {
    hide Planned, Decoded, ChainStepTo, ChainTo, Loadable;
    ChainStepDecodes(segs, fs, chaining, k);
    ChainEnds(Decoded(segs, fs, chaining, k, fs[k].reloc.target), fs[k].ty,
              Decoded(segs, fs, chaining, k + 1, EndOf(fs, k + 1)), HeaderAt(fs, k));
  }

  lemma ChainLink(segs: seq<Segment>, fs: seq<Fixup>, chaining: bool, k: nat, r: State)
    requires Encoded(segs, fs, chaining) && k < |fs| && Packed(fs[k], chaining) && Chain(fs, k).Some?
    requires ChainTo(Decoded(segs, fs, chaining, k + 1, fs[k + 1].reloc.target), fs[k + 1].ty, r)
    ensures ChainTo(Decoded(segs, fs, chaining, k, fs[k].reloc.target), fs[k].ty, r)
  {
    hide Planned, Decoded, ChainStepTo, ChainTo, MovedOn, Loadable;
    ChainStepDecodes(segs, fs, chaining, k);
    PlannedFacts(segs, fs, chaining, k + 1);
    SplitHeader(fs[k + 1].offset, fs[k].ty);
    Retarget(segs, fs, chaining, k + 1);
    ChainGoesOn(Decoded(segs, fs, chaining, k, fs[k].reloc.target), fs[k].ty,
                Decoded(segs, fs, chaining, k + 1, EndOf(fs, k + 1)), HeaderAt(fs, k), fs[k + 1].offset,
                Decoded(segs, fs, chaining, k + 1, fs[k + 1].reloc.target), fs[k + 1].ty, r);
  }

  lemma {:induction false} ChainDecodes(segs: seq<Segment>, fs: seq<Fixup>, chaining: bool, k: nat)
    requires Encoded(segs, fs, chaining) && k < |fs| && Packed(fs[k], chaining)
    ensures var j := NextHead(fs, k, |fs|);
            ChainTo(Decoded(segs, fs, chaining, k, fs[k].reloc.target), fs[k].ty,
                    Decoded(segs, fs, chaining, j, EndOf(fs, j)))
    decreases |fs| - k
  {
    hide Planned, Decoded, ChainTo, Loadable;
    if Chain(fs, k).None? {
      ChainLast(segs, fs, chaining, k);
    } else {
      PlannedFacts(segs, fs, chaining, k + 1);
      ChainDecodes(segs, fs, chaining, k + 1);
      var j := NextHead(fs, k + 1, |fs|);
      ChainLink(segs, fs, chaining, k, Decoded(segs, fs, chaining, j, EndOf(fs, j)));
    }
  }

  lemma UnpackedEnds(segs: seq<Segment>, fs: seq<Fixup>, chaining: bool, k: nat)
    requires Encoded(segs, fs, chaining) && k < |fs| && !Packed(fs[k], chaining)
    ensures NextHead(fs, k, |fs|) == k + 1
    ensures fs[k].reloc.End() <= ImageSize(segs)
  {
    hide Planned, Loadable, WellFormed;
    if k + 1 < |fs| {
      PlannedFacts(segs, fs, chaining, k + 1);
    }
    assert CheckedReloc(segs, fs[k].reloc);
    StepBounds(segs, fs[k].reloc.target, fs[k].Size(), 0);
  }

  lemma ApplyResult(s: State, ty: nat, r: Reloc)
    requires Loadable(s.segs) && r.target == s.target && r.End() <= ImageSize(s.segs)
    requires ty < RELOC_GENERIC_MAX && r.ty == (if ty == RELOC_64 then REL_DIR64 else REL_HIGHLOW)
    ensures ScanApply(s, ty) == Some(State(s.relocs + [r], s.segs, r.End()))
  {
  }

  lemma UnpackedStep(segs: seq<Segment>, fs: seq<Fixup>, chaining: bool, k: nat)
    requires Encoded(segs, fs, chaining) && k < |fs| && !Packed(fs[k], chaining)
    ensures var s := Decoded(segs, fs, chaining, k, fs[k].reloc.target);
            && Loadable(s.segs) && ImageSize(s.segs) == ImageSize(segs)
            && Decoded(segs, fs, chaining, k + 1, EndOf(fs, k + 1)) == State(s.relocs + [fs[k].reloc], s.segs, fs[k].reloc.End())
  {
    hide Planned, WellFormed, RelocsOf;
    DecodedLoadable(segs, fs, chaining, k);
    RelocsSnoc(fs, k);
    SameChecked(segs, Chained(segs, fs, chaining, k), PAGE_SIZE);
  }

  lemma UnpackedDecodes(segs: seq<Segment>, fs: seq<Fixup>, chaining: bool, k: nat)
    requires Encoded(segs, fs, chaining) && k < |fs| && !Packed(fs[k], chaining)
    ensures FixupTo(Decoded(segs, fs, chaining, k, fs[k].reloc.target), fs[k].ty, chaining,
                    Decoded(segs, fs, chaining, k + 1, EndOf(fs, k + 1)))
  {
    hide Planned, WellFormed, Chained, RelocsOf, Loadable, ScanChain, ScanApply, FixupsHold;
    UnpackedEnds(segs, fs, chaining, k);
    UnpackedStep(segs, fs, chaining, k);
    PlannedFacts(segs, fs, chaining, k);
    ApplyResult(Decoded(segs, fs, chaining, k, fs[k].reloc.target), fs[k].ty, fs[k].reloc);
  }

  lemma FixupDecodes(segs: seq<Segment>, fs: seq<Fixup>, chaining: bool, k: nat)
    requires Encoded(segs, fs, chaining) && k < |fs|
    ensures var j := NextHead(fs, k, |fs|);
            FixupTo(Decoded(segs, fs, chaining, k, fs[k].reloc.target), fs[k].ty, chaining,
                    Decoded(segs, fs, chaining, j, EndOf(fs, j)))
  {
    hide Planned, Decoded, Loadable, WellFormed, ScanChain, ScanApply;
    if Packed(fs[k], chaining) {
      ChainDecodes(segs, fs, chaining, k);
    } else {
      UnpackedEnds(segs, fs, chaining, k);
      UnpackedDecodes(segs, fs, chaining, k);
    }
  }

  // ---------------------------------------------------------------- heads

  /** The first root after k, or |fs|. */
  ghost function NextRoot(fs: seq<Fixup>, k: nat): (r: nat)
    requires k < |fs|
    ensures k < r <= |fs| && (r < |fs| ==> fs[r].kind.Root?)
    decreases |fs| - k
  {
    var j := NextHead(fs, k, |fs|);
    if j < |fs| && fs[j].kind.Head? then NextRoot(fs, j) else j
  }

  /** The emitted table, padded to the load table alignment. */
  function PaddedTable(fs: seq<Fixup>): (t: seq<byte>)
    requires RootFirst(fs)
    ensures |t| == AlignUp(|Table(fs, |fs|)|, 8)
  {
    var t := Table(fs, |fs|);
    t + Zeros(AlignAddend(|t|, 8))
  }

  /** Padding included, an emitted table costs at most eight bytes per relocation. */
  lemma PaddedTableBound(fs: seq<Fixup>)
    requires RootFirst(fs)
    ensures |PaddedTable(fs)| <= 8 * |fs|
  {
    hide Table, AlignAddend;
    TableSizeBound(fs, |fs|);
    AlignUpLeast(|Table(fs, |fs|)|, 8 * |fs|, 8);
  }

  lemma HeadEntryRead(t: seq<byte>, at: nat, ty: nat, offset: nat)
    requires at + 2 <= |t| && Load(t, at, 2) == HeadEntry(ty, offset) && ty < RELOC_GENERIC_MAX
    ensures EntryAt(t, at, ty, offset)
  {
    hide Load;
    SplitHeader(offset, ty);
  }

  /** The next head is stored right after the head of fixup k. */
  lemma HeadFollows(fs: seq<Fixup>, k: nat)
    requires WellFormed(fs) && k < |fs| && !fs[k].kind.Link?
    ensures var j := NextHead(fs, k, |fs|);
            |Table(fs, j)| == HeadAt(fs, k) + 2
            && (j < |fs| && fs[j].kind.Head? ==> HeadAt(fs, j) == HeadAt(fs, k) + 2)
  {
    hide Table, WellFormedAt;
    var j := NextHead(fs, k, |fs|);
    LinksAddNothing(fs, k, j);
    if j < |fs| && fs[j].kind.Head? {
      TablePatches(fs, j + 1);
    }
  }

  lemma HeadRead(fs: seq<Fixup>, k: nat)
    requires WellFormed(fs) && k < |fs| && !fs[k].kind.Link?
    ensures EntryAt(PaddedTable(fs), HeadAt(fs, k), fs[k].ty, OffsetAfter(fs, k, |fs|))
    ensures var j := NextHead(fs, k, |fs|);
            |Table(fs, j)| == HeadAt(fs, k) + 2
            && (j < |fs| && fs[j].kind.Head? ==> HeadAt(fs, j) == HeadAt(fs, k) + 2)
  {
    hide Table, HeadAt, OffsetAfter, NextHead, AlignAddend, Load, HeadEntry, EntryAt;
    var t := Table(fs, |fs|);
    HeadStored(fs, k, |fs|);
    assert WellFormedAt(fs, k);
    LoadAppend(t, Zeros(AlignAddend(|t|, 8)), HeadAt(fs, k), 2);
    HeadEntryRead(PaddedTable(fs), HeadAt(fs, k), fs[k].ty, OffsetAfter(fs, k, |fs|));
    HeadFollows(fs, k);
  }

  lemma {:induction false} HeadsDecode(segs: seq<Segment>, fs: seq<Fixup>, chaining: bool, k: nat)
    requires Encoded(segs, fs, chaining) && k < |fs| && !fs[k].kind.Link?
    ensures var r := NextRoot(fs, k);
            HeadsTo(PaddedTable(fs), Decoded(segs, fs, chaining, k, fs[k].reloc.target), HeadAt(fs, k), chaining,
                    Decoded(segs, fs, chaining, r, EndOf(fs, r)), |Table(fs, r)|)
    decreases |fs| - k
  {
    hide Planned, Decoded, Loadable, PaddedTable, HeadAt, Table, EntryAt, FixupTo, HeadsTo, MovedOn;
    FixupDecodes(segs, fs, chaining, k);
    HeadRead(fs, k);
    var j := NextHead(fs, k, |fs|);
    var s, t := Decoded(segs, fs, chaining, k, fs[k].reloc.target), Decoded(segs, fs, chaining, j, EndOf(fs, j));
    if j < |fs| && fs[j].kind.Head? {
      PlannedFacts(segs, fs, chaining, j);
      HeadsDecode(segs, fs, chaining, j);
      Retarget(segs, fs, chaining, j);
      var r, u := NextRoot(fs, j), Decoded(segs, fs, chaining, j, fs[j].reloc.target);
      HeadsGoOn(PaddedTable(fs), s, HeadAt(fs, k), chaining, fs[k].ty, t, fs[j].offset, u, HeadAt(fs, j),
                Decoded(segs, fs, chaining, r, EndOf(fs, r)), |Table(fs, r)|);
    } else {
      HeadsEnd(PaddedTable(fs), s, HeadAt(fs, k), chaining, fs[k].ty, t, |Table(fs, j)|);
    }
  }

  // ---------------------------------------------------------------- roots

  lemma RootRead(fs: seq<Fixup>, k: nat)
    requires WellFormed(fs) && k < |fs| && fs[k].kind.Root?
    ensures var p := AlignUp(|Table(fs, k)|, 4);
            p + 4 == HeadAt(fs, k) && RootAt(PaddedTable(fs), p, fs[k].offset)
  {
    hide Table;
    var t := Table(fs, |fs|);
    RootStored(fs, k, |fs|);
    LoadAppend(t, Zeros(AlignAddend(|t|, 8)), HeadAt(fs, k) - 4, 4);
  }

  /** Padding at the end of the table is too short to be read as a root. */
  lemma PaddingIsNoRoot(fs: seq<Fixup>)
    requires RootFirst(fs)
    ensures AlignUp(|Table(fs, |fs|)|, 4) + 6 > |PaddedTable(fs)|
  {
    hide Table, AlignAddend;
    var n := |Table(fs, |fs|)|;
    NextEight(AlignUp(n, 4));
    var y := AlignUp(n, 4);
    AlignUpLeast(n, if y % 8 == 0 then y else y + 4, 8);
  }

  lemma NextEight(y: nat)
    requires y % 4 == 0
    ensures y % 8 == 0 || (y + 4) % 8 == 0
  {
  }

  lemma {:induction false} RootsDecode(segs: seq<Segment>, fs: seq<Fixup>, chaining: bool, k: nat)
    requires Encoded(segs, fs, chaining) && k <= |fs| && (k < |fs| ==> fs[k].kind.Root?)
    ensures RootsTo(PaddedTable(fs), Decoded(segs, fs, chaining, k, EndOf(fs, k)), AlignUp(|Table(fs, k)|, 4), chaining,
                    Decoded(segs, fs, chaining, |fs|, EndOf(fs, |fs|)))
    decreases |fs| - k
  {
    DecodedLoadable(segs, fs, chaining, k);
    assert Loadable(Decoded(segs, fs, chaining, k, EndOf(fs, k)).segs)
           && Decoded(segs, fs, chaining, k, EndOf(fs, k)).target == EndOf(fs, k);
    hide Planned, Decoded, Loadable, PaddedTable, HeadAt, Table, RootAt, AlignUp, HeadsTo, RootsTo, MovedOn;
    var s := Decoded(segs, fs, chaining, k, EndOf(fs, k));
    if k == |fs| {
      PaddingIsNoRoot(fs);
      RootsEnd(PaddedTable(fs), s, AlignUp(|Table(fs, k)|, 4), chaining);
    } else {
      PlannedFacts(segs, fs, chaining, k);
      RootRead(fs, k);
      HeadsDecode(segs, fs, chaining, k);
      Retarget(segs, fs, chaining, k);
      var r := NextRoot(fs, k);
      RootsDecode(segs, fs, chaining, r);
      var u, t := Decoded(segs, fs, chaining, k, fs[k].reloc.target), Decoded(segs, fs, chaining, r, EndOf(fs, r));
      RootsGoOn(PaddedTable(fs), s, AlignUp(|Table(fs, k)|, 4), chaining, fs[k].offset, u, HeadAt(fs, k), t,
                |Table(fs, r)|, AlignUp(|Table(fs, r)|, 4), Decoded(segs, fs, chaining, |fs|, EndOf(fs, |fs|)));
    }
  }

  /**
   * The round trip: whenever the emitter can plan the relocations, decoding its table on the segments it packed
   * yields the original relocations, in order, and the original bytes.
   */
  lemma RelocsRoundTrip(segs: seq<Segment>, relocs: seq<Reloc>, chaining: bool)
    requires Loadable(segs) && AllHold(segs, relocs) && Ordered(relocs)
    requires Plan(segs, relocs, chaining).Some?
    ensures var fs := Plan(segs, relocs, chaining).value;
            && FixupsHold(segs, fs) && WellFormed(fs)
            && Loadable(Chained(segs, fs, chaining, 0))
            && exists end :: ScanRelocs(PaddedTable(fs), Chained(segs, fs, chaining, 0), chaining)
                             == Some(State(relocs, segs, end))
  {
    hide Loadable, Plan, ScanRoots;
    var fs := Plan(segs, relocs, chaining).value;
    PlanPlanned(segs, relocs, chaining);
    PlannedHolds(segs, fs, chaining);
    PlannedWellFormed(segs, fs, chaining);
    if fs != [] {
      assert WellFormedAt(fs, 0);
    }
    RootsDecode(segs, fs, chaining, 0);
    assert RelocsOf(fs, |fs|) == relocs;
    assert Decoded(segs, fs, chaining, 0, 0) == State([], Chained(segs, fs, chaining, 0), 0);
    assert ScanRelocs(PaddedTable(fs), Chained(segs, fs, chaining, 0), chaining)
        == Some(State(relocs, segs, EndOf(fs, |fs|)));
  }
}
