/** The in-place chains: what is overwritten, what can be recovered, and how a chain grows. */
module UeChains {
  import opened Bytes
  import opened Image
  import opened UeFixups

  /** Everything the decoder relies on at fixup k. */
  ghost predicate Facts(fs: seq<Fixup>, chaining: bool, k: nat)
    requires k < |fs|
  {
    var f := fs[k];
    && f.ty < RELOC_GENERIC_MAX
    && f.reloc.ty == (if f.ty == RELOC_64 then REL_DIR64 else REL_HIGHLOW)
    && f.offset == f.reloc.target - (if k == 0 then 0 else fs[k - 1].reloc.End())
    && 0 <= f.offset < TWO_32
    && (k == 0 ==> f.kind.Root?)
    && (!f.kind.Root? ==> f.offset <= MAX_OFFSET)
    && (f.kind.Link? ==> k > 0 && f.ty == fs[k - 1].ty && Packed(f, chaining))
    && (Packed(f, chaining) ==> f.value < if f.ty == RELOC_64 then TWO_48 else TWO_20)
    && (!chaining ==> f.ty != RELOC_32_NO_META)
  }

  lemma PlannedFacts(segs: seq<Segment>, fs: seq<Fixup>, chaining: bool, k: nat)
    requires Planned(segs, fs, chaining) && k < |fs|
    ensures Facts(fs, chaining, k)
  {
    hide Pack32, Pack64, Holds;
    assert PlannedAt(segs, fs, chaining, k);
    Fits32Iff(fs[k].value);
    Fits64Iff(fs[k].value);
  }

  lemma PlannedHolds(segs: seq<Segment>, fs: seq<Fixup>, chaining: bool)
    requires Planned(segs, fs, chaining)
    ensures FixupsHold(segs, fs)
  {
    hide Next, Holds;
    forall k | 0 <= k < |fs| ensures CheckedReloc(segs, fs[k].reloc) {
      assert PlannedAt(segs, fs, chaining, k);
    }
  }

  lemma PlannedWellFormed(segs: seq<Segment>, fs: seq<Fixup>, chaining: bool)
    requires Planned(segs, fs, chaining)
    ensures WellFormed(fs)
  {
    forall k | 0 <= k < |fs| ensures WellFormedAt(fs, k) {
      PlannedFacts(segs, fs, chaining, k);
    }
    if fs != [] {
      PlannedFacts(segs, fs, chaining, 0);
    }
  }

  lemma {:induction false} TargetsOrdered(segs: seq<Segment>, fs: seq<Fixup>, chaining: bool, i: nat, j: nat)
    requires Planned(segs, fs, chaining) && i < j < |fs|
    ensures fs[i].reloc.End() <= fs[j].reloc.target
    decreases j
  {
    hide Next, Holds;
    assert PlannedAt(segs, fs, chaining, j);
    if i < j - 1 {
      TargetsOrdered(segs, fs, chaining, i, j - 1);
    }
  }

  // ---------------------------------------------------------------- reading and undoing

  /** Words that end before fixup k are as they were. */
  lemma {:induction false} ReadBefore(segs: seq<Segment>, fs: seq<Fixup>, chaining: bool, k: nat, a: nat, n: nat)
    requires Planned(segs, fs, chaining) && FixupsHold(segs, fs) && k <= |fs| && Holds(segs, a, n)
    requires forall j :: k <= j < |fs| ==> a + n <= fs[j].reloc.target
    ensures Holds(Chained(segs, fs, chaining, k), a, n)
    ensures ReadWord(Chained(segs, fs, chaining, k), a, n) == ReadWord(segs, a, n)
    decreases |fs| - k
  {
    hide Planned, Word, Holds;
    if k < |fs| {
      ReadBefore(segs, fs, chaining, k + 1, a, n);
      if Packed(fs[k], chaining) {
        var t, f := Chained(segs, fs, chaining, k + 1), fs[k];
        SameLocate(segs, t, f.reloc.target);
        assert CheckedReloc(segs, f.reloc);
        ReadWriteOther(t, f.reloc.target, f.Size(), Word(f, Chain(fs, k)), a, n);
      }
    }
  }

  /** Words that start after every fixup so far are as they were: no in-place write changes a value read later. */
  lemma {:induction false} ReadAfter(segs: seq<Segment>, fs: seq<Fixup>, chaining: bool, k: nat, a: nat, n: nat)
    requires FixupsHold(segs, fs) && k <= |fs| && Holds(segs, a, n)
    requires forall j :: k <= j < |fs| ==> fs[j].reloc.End() <= a
    ensures Holds(Chained(segs, fs, chaining, k), a, n)
    ensures ReadWord(Chained(segs, fs, chaining, k), a, n) == ReadWord(segs, a, n)
    decreases |fs| - k
  {
    hide Word, Holds;
    if k < |fs| {
      ReadAfter(segs, fs, chaining, k + 1, a, n);
      if Packed(fs[k], chaining) {
        var t, f := Chained(segs, fs, chaining, k + 1), fs[k];
        SameLocate(segs, t, f.reloc.target);
        assert CheckedReloc(segs, f.reloc);
        ReadWriteOther(t, f.reloc.target, f.Size(), Word(f, Chain(fs, k)), a, n);
      }
    }
  }

  /** Bytes outside every fixup are as they were. */
  lemma {:induction false} ChainedFrame(segs: seq<Segment>, fs: seq<Fixup>, chaining: bool, k: nat, i: nat, j: nat)
    requires FixupsHold(segs, fs) && k <= |fs| && i < |segs| && j < |segs[i].data|
    requires forall m :: k <= m < |fs| ==> !(fs[m].reloc.target <= segs[i].address + j < fs[m].reloc.End())
    ensures Chained(segs, fs, chaining, k)[i].data[j] == segs[i].data[j]
    decreases |fs| - k
  {
    hide Word, Holds;
    if k < |fs| {
      ChainedFrame(segs, fs, chaining, k + 1, i, j);
      if Packed(fs[k], chaining) {
        var t, f := Chained(segs, fs, chaining, k + 1), fs[k];
        SameLocate(segs, t, f.reloc.target);
        assert CheckedReloc(segs, f.reloc);
        WriteFrame(t, f.reloc.target, f.Size(), Word(f, Chain(fs, k)), i, j);
      }
    }
  }

  lemma ReadFixup(segs: seq<Segment>, fs: seq<Fixup>, chaining: bool, k: nat)
    requires Planned(segs, fs, chaining) && FixupsHold(segs, fs) && k < |fs|
    ensures var t := Chained(segs, fs, chaining, k + 1);
            Holds(t, fs[k].reloc.target, fs[k].Size())
            && ReadWord(t, fs[k].reloc.target, fs[k].Size()) == fs[k].value
  {
    hide Next, Holds, Chained;
    assert PlannedAt(segs, fs, chaining, k);
    forall j | k + 1 <= j < |fs| ensures fs[k].reloc.End() <= fs[j].reloc.target {
      TargetsOrdered(segs, fs, chaining, k, j);
    }
    ReadBefore(segs, fs, chaining, k + 1, fs[k].reloc.target, fs[k].Size());
  }

  lemma WordBounds(fs: seq<Fixup>, chaining: bool, k: nat)
    requires k < |fs| && Facts(fs, chaining, k) && (k + 1 < |fs| ==> Facts(fs, chaining, k + 1))
    requires Packed(fs[k], chaining)
    ensures Word(fs[k], Chain(fs, k)) < Pow256(fs[k].Size())
    ensures var w, next := Word(fs[k], Chain(fs, k)), Chain(fs, k);
            var offset := if next.Some? then next.value.offset else OFFSET_END;
            && (fs[k].ty == RELOC_64 ==>
                  w / 0x1_0000 == fs[k].value
                  && w % 0x1_0000 == offset * 0x10 + if next.Some? then RELOC_64 else 0)
            && (fs[k].ty == RELOC_32 ==>
                  w / 0x1000 == fs[k].value
                  && (w * 0x10 % TWO_32) % 0x1_0000 == offset * 0x10)
  {
    hide Pack32, Pack64;
    Pow256Values();
    var next := Chain(fs, k);
    var offset := if next.Some? then next.value.offset else OFFSET_END;
    if fs[k].ty == RELOC_64 {
      Unpack64(fs[k].value, offset, if next.Some? then next.value.ty else 0);
    } else {
      Unpack32(fs[k].value, offset);
    }
  }

  /** The decoder's step at a packed fixup reads its metadata and its write undoes the packing of exactly that word. */
  lemma UndoFixup(segs: seq<Segment>, fs: seq<Fixup>, chaining: bool, k: nat)
    requires Planned(segs, fs, chaining) && FixupsHold(segs, fs) && k < |fs| && Packed(fs[k], chaining)
    ensures var t, a, n := Chained(segs, fs, chaining, k), fs[k].reloc.target, fs[k].Size();
            && Holds(t, a, n)
            && ReadWord(t, a, n) == Word(fs[k], Chain(fs, k))
            && WriteWord(t, a, n, fs[k].value) == Chained(segs, fs, chaining, k + 1)
  {
    hide Planned, Word, Holds;
    var f, u := fs[k], Chained(segs, fs, chaining, k + 1);
    var a, n, w := f.reloc.target, f.Size(), Word(f, Chain(fs, k));
    PlannedFacts(segs, fs, chaining, k);
    if k + 1 < |fs| {
      PlannedFacts(segs, fs, chaining, k + 1);
    }
    WordBounds(fs, chaining, k);
    ReadFixup(segs, fs, chaining, k);
    ReadWriteSame(u, a, n, w);
    WriteWriteSame(u, a, n, w, f.value);
    WriteRead(u, a, n);
  }

  // ---------------------------------------------------------------- growing

  /** What the emitter writes for a new fixup f: the link in its predecessor's word, then its own word. */
  ghost function Extend(t: seq<Segment>, prev: Option<Fixup>, f: Fixup, chaining: bool): (u: seq<Segment>)
    requires Holds(t, f.reloc.target, f.Size())
    requires prev.Some? ==> Holds(t, prev.value.reloc.target, prev.value.Size())
    ensures SameShape(t, u)
  {
    var u := if f.kind.Link? && prev.Some?
             then WriteWord(t, prev.value.reloc.target, prev.value.Size(), Word(prev.value, Some(f))) else t;
    SameLocate(t, u, f.reloc.target);
    if Packed(f, chaining) then WriteWord(u, f.reloc.target, f.Size(), Word(f, None)) else u
  }

  /** A write apart from both words may be made after the extension instead of before it. */
  lemma ExtendCommutes(t: seq<Segment>, prev: Option<Fixup>, f: Fixup, chaining: bool, a: nat, n: nat, v: nat)
    requires Holds(t, f.reloc.target, f.Size()) && Disjoint(a, n, f.reloc.target, f.Size())
    requires prev.Some? ==>
      Holds(t, prev.value.reloc.target, prev.value.Size())
      && Disjoint(a, n, prev.value.reloc.target, prev.value.Size())
    requires Holds(t, a, n)
    ensures var w := WriteWord(t, a, n, v);
            && Holds(w, f.reloc.target, f.Size())
            && (prev.Some? ==> Holds(w, prev.value.reloc.target, prev.value.Size()))
            && Holds(Extend(t, prev, f, chaining), a, n)
            && Extend(w, prev, f, chaining) == WriteWord(Extend(t, prev, f, chaining), a, n, v)
  {
    hide Word, Holds;
    var w := WriteWord(t, a, n, v);
    SameLocate(t, w, f.reloc.target);
    SameLocate(t, Extend(t, prev, f, chaining), a);
    var u := t;
    if f.kind.Link? && prev.Some? {
      var p := prev.value;
      WriteWriteOther(t, a, n, v, p.reloc.target, p.Size(), Word(p, Some(f)));
      u := WriteWord(t, p.reloc.target, p.Size(), Word(p, Some(f)));
    } else if prev.Some? {
      SameLocate(t, w, prev.value.reloc.target);
    }
    SameLocate(t, u, f.reloc.target);
    if Packed(f, chaining) {
      WriteWriteOther(u, a, n, v, f.reloc.target, f.Size(), Word(f, None));
    }
  }

  /** Writing for a new fixup turns the encoding of the fixups so far into the encoding of all of them. */
  lemma ChainedSnoc(segs: seq<Segment>, fs: seq<Fixup>, f: Fixup, chaining: bool)
    requires Planned(segs, fs + [f], chaining) && FixupsHold(segs, fs + [f])
    ensures FixupsHold(segs, fs)
    ensures var t, prev := Chained(segs, fs, chaining, 0), Prev(fs, |fs|);
            && Holds(t, f.reloc.target, f.Size())
            && (prev.Some? ==> Holds(t, prev.value.reloc.target, prev.value.Size()))
            && Chained(segs, fs + [f], chaining, 0) == Extend(t, prev, f, chaining)
  {
    SnocHolds(segs, fs, f, chaining, 0);
    if fs == [] {
      assert (fs + [f])[0] == f;
      PlannedFacts(segs, fs + [f], chaining, 0);
    } else {
      ChainedSnocFrom(segs, fs, f, chaining, 0);
    }
  }

  lemma SnocHolds(segs: seq<Segment>, fs: seq<Fixup>, f: Fixup, chaining: bool, k: nat)
    requires FixupsHold(segs, fs + [f]) && k <= |fs|
    ensures FixupsHold(segs, fs)
    ensures var t, prev := Chained(segs, fs, chaining, k), Prev(fs, |fs|);
            && Holds(t, f.reloc.target, f.Size())
            && (prev.Some? ==> Holds(t, prev.value.reloc.target, prev.value.Size()))
  {
    hide Holds;
    var gs := fs + [f];
    forall i | 0 <= i < |fs| ensures CheckedReloc(segs, fs[i].reloc) {
      assert gs[i] == fs[i];
    }
    var t := Chained(segs, fs, chaining, k);
    assert CheckedReloc(segs, gs[|fs|].reloc);
    SameLocate(segs, t, f.reloc.target);
    if fs != [] {
      assert CheckedReloc(segs, fs[|fs| - 1].reloc);
      SameLocate(segs, t, fs[|fs| - 1].reloc.target);
    }
  }

  lemma {:induction false} ChainedSnocFrom(segs: seq<Segment>, fs: seq<Fixup>, f: Fixup, chaining: bool, k: nat)
    requires Planned(segs, fs + [f], chaining) && FixupsHold(segs, fs + [f]) && FixupsHold(segs, fs) && k < |fs|
    ensures var t, prev := Chained(segs, fs, chaining, k), Prev(fs, |fs|);
            && Holds(t, f.reloc.target, f.Size())
            && Holds(t, prev.value.reloc.target, prev.value.Size())
            && Chained(segs, fs + [f], chaining, k) == Extend(t, prev, f, chaining)
    decreases |fs| - k
  {
    hide Planned, Word, Holds;
    var gs, n := fs + [f], |fs|;
    SnocHolds(segs, fs, f, chaining, k);
    if k == n - 1 {
      ChainedSnocLast(segs, fs, f, chaining);
    } else {
      ChainedSnocFrom(segs, fs, f, chaining, k + 1);
      assert gs[k] == fs[k] && Chain(gs, k) == Chain(fs, k);
      if Packed(fs[k], chaining) {
        TargetsOrdered(segs, gs, chaining, k, n);
        TargetsOrdered(segs, gs, chaining, k, n - 1);
        var t, g := Chained(segs, fs, chaining, k + 1), fs[k];
        assert CheckedReloc(segs, g.reloc);
        SameLocate(segs, t, g.reloc.target);
        ExtendCommutes(t, Prev(fs, n), f, chaining, g.reloc.target, g.Size(), Word(g, Chain(fs, k)));
      }
    }
  }

  lemma ChainedSnocLast(segs: seq<Segment>, fs: seq<Fixup>, f: Fixup, chaining: bool)
    requires Planned(segs, fs + [f], chaining) && FixupsHold(segs, fs + [f]) && FixupsHold(segs, fs) && fs != []
    ensures var t, prev := Chained(segs, fs, chaining, |fs| - 1), Prev(fs, |fs|);
            && Holds(t, f.reloc.target, f.Size())
            && Holds(t, prev.value.reloc.target, prev.value.Size())
            && Chained(segs, fs + [f], chaining, |fs| - 1) == Extend(t, prev, f, chaining)
  {
    hide Planned, Word, Holds;
    var gs, n := fs + [f], |fs|;
    var p := fs[n - 1];
    assert gs[n] == f && gs[n - 1] == p;
    SnocHolds(segs, fs, f, chaining, n - 1);
    PlannedFacts(segs, gs, chaining, n);
    TargetsOrdered(segs, gs, chaining, n - 1, n);
    assert CheckedReloc(segs, gs[n].reloc) && CheckedReloc(segs, gs[n - 1].reloc);
    var pa, pn, fa, fn := p.reloc.target, p.Size(), f.reloc.target, f.Size();
    var w, v := Word(p, Chain(gs, n - 1)), Word(f, None);
    assert Chain(gs, n) == None && Chain(fs, n - 1) == None;
    assert Chain(gs, n - 1) == if f.kind.Link? then Some(f) else None;
    assert Chained(segs, gs, chaining, n + 1) == segs == Chained(segs, fs, chaining, n);
    assert Chained(segs, gs, chaining, n) == if Packed(f, chaining) then WriteWord(segs, fa, fn, v) else segs;
    assert f.kind.Link? ==> Packed(p, chaining);
    if Packed(p, chaining) {
      WriteWriteSame(segs, pa, pn, Word(p, None), w);
      if Packed(f, chaining) {
        WriteWriteOther(segs, pa, pn, w, fa, fn, v);
      }
    }
  }
}
