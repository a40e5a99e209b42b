/** What an image means: the bytes a loader puts into memory, at whatever address it places the first segment. */
module Meaning {
  import opened Bytes
  import opened Image
  import opened Relocation
  import opened StripPrefix

  /** The address its first segment is linked to. */
  function Anchor(img: Image): (a: uint64)
    requires Checked(img)
  {
    img.header.baseAddress + img.segments[0].address
  }

  /** The segments once the first of them has been placed at x and every relocation applied. */
  ghost function Loaded(img: Image, x: uint64): (segs: seq<Segment>)
    requires Checked(img)
    ensures SameShape(img.segments, segs)
  {
    RelocateAll(img.segments, img.relocs, WrapSub(x, Anchor(img)))
  }

  ghost predicate SameData(s: seq<Segment>, t: seq<Segment>) {
    |s| == |t| && forall i :: 0 <= i < |s| ==> s[i].data == t[i].data
  }

  /** The segments lie at the same distances from the first one, with the same sizes and permissions. */
  ghost predicate SameLayout(a: Image, b: Image) {
    && |a.segments| == |b.segments|
    && forall i :: 0 <= i < |a.segments| ==>
         && a.segments[i].address - a.segments[0].address == b.segments[i].address - b.segments[0].address
         && |a.segments[i].data| == |b.segments[i].data|
         && a.segments[i].read == b.segments[i].read
         && a.segments[i].write == b.segments[i].write
         && a.segments[i].execute == b.segments[i].execute
  }

  ghost predicate SameEntry(a: Image, b: Image)
    requires a.segments != [] && b.segments != []
  {
    a.header.entryPoint - a.segments[0].address == b.header.entryPoint - b.segments[0].address
  }

  /**
   * The same layout, permissions, entry point and, wherever the images are placed, the same bytes. Machine, subsystem and
   * the fixed-address flag are compared elsewhere.
   */
  ghost predicate SameMeaning(a: Image, b: Image) {
    && Checked(a) && Checked(b)
    && SameLayout(a, b) && SameEntry(a, b)
    && forall x: uint64 :: SameData(Loaded(a, x), Loaded(b, x))
  }

  lemma MeaningTransitive(a: Image, b: Image, c: Image)
    requires SameMeaning(a, b) && SameMeaning(b, c)
    ensures SameMeaning(a, c)
  {
    hide Checked;
    forall x: uint64 ensures SameData(Loaded(a, x), Loaded(c, x)) {
      assert SameData(Loaded(a, x), Loaded(b, x)) && SameData(Loaded(b, x), Loaded(c, x));
    }
  }

  // ---------------------------------------------------------------- moving

  lemma RelocateLoads(img: Image, base: uint64, x: uint64)
    requires Checked(img) && Relocate(img, base, 0).Some? && Checked(Relocate(img, base, 0).value)
    ensures Loaded(Relocate(img, base, 0).value, x) == Loaded(img, x)
  {
    hide RelocateAll, Relocate, CheckedSegments, AllHold, Ordered;
    RelocateValue(img, base, 0);
    var m, b := Relocate(img, base, 0).value, img.header.baseAddress;
    ShapeLayout(img, m);
    MovesTo(img.segments, img.relocs, WrapSub(base, b), WrapSub(x, Anchor(m)), WrapSub(x, Anchor(img)));
  }

  lemma ShapeLayout(a: Image, b: Image)
    requires SameShape(a.segments, b.segments)
    ensures SameLayout(a, b)
    ensures a.segments != [] ==> a.segments[0].address == b.segments[0].address
  {
  }

  lemma RelocateMeaning(img: Image, base: uint64)
    requires Checked(img) && Relocate(img, base, 0).Some?
    ensures Checked(Relocate(img, base, 0).value) && SameMeaning(img, Relocate(img, base, 0).value)
  {
    hide RelocateAll, Relocate, CheckedSegment, AllHold, SameShape, SameLayout, Ordered, Loaded;
    RelocateChecked(img, base);
    RelocateValue(img, base, 0);
    var m := Relocate(img, base, 0).value;
    ShapeLayout(img, m);
    forall x: uint64 ensures SameData(Loaded(img, x), Loaded(m, x)) {
      RelocateLoads(img, base, x);
    }
  }

  // ---------------------------------------------------------------- shifting

  lemma ShiftWrite(segs: seq<Segment>, s: uint32, a: nat, n: nat, v: nat)
    requires AtLeast(segs, [], s) && s <= a && Holds(segs, a, n)
    ensures Holds(ShiftSegments(segs, s), a - s, n)
    ensures WriteWord(ShiftSegments(segs, s), a - s, n, v) == ShiftSegments(WriteWord(segs, a, n, v), s)
  {
    hide Locate, Store, ShiftSegments;
    ShiftLocate(segs, s, a);
    var i, t := Locate(segs, a), ShiftSegments(segs, s);
    var data := Store(segs[i].data, a - segs[i].address, n, v);
    assert t[i].data == segs[i].data && a - s - t[i].address == a - segs[i].address;
    assert SetData(t, i, data) == ShiftSegments(SetData(segs, i, data), s);
  }

  lemma ShiftOne(segs: seq<Segment>, r: Reloc, s: uint32, d: nat)
    requires AtLeast(segs, [], s) && s <= r.target && CheckedReloc(segs, r)
    ensures var q := r.(target := Sub32(r.target, s));
            CheckedReloc(ShiftSegments(segs, s), q)
            && RelocateOne(ShiftSegments(segs, s), q, d) == ShiftSegments(RelocateOne(segs, r, d), s)
  {
    hide Holds, Adjust, WriteWord, ReadWord, ShiftSegments, Locate, SameShape, AtLeast;
    var n := RelocSize(r.ty);
    ShiftRead(segs, s, r.target, n);
    ShiftWrite(segs, s, r.target, n, Adjust(ReadWord(segs, r.target, n), d, n));
  }

  lemma ShiftHold(segs: seq<Segment>, relocs: seq<Reloc>, s: uint32)
    requires AtLeast(segs, relocs, s) && AllHold(segs, relocs)
    ensures AllHold(ShiftSegments(segs, s), ShiftRelocs(relocs, s))
  {
    forall k | 0 <= k < |relocs| ensures CheckedReloc(ShiftSegments(segs, s), ShiftRelocs(relocs, s)[k]) {
      assert CheckedReloc(segs, relocs[k]);
      ShiftLocate(segs, s, relocs[k].target);
    }
  }

  lemma TailAtLeast(segs: seq<Segment>, relocs: seq<Reloc>, s: uint32)
    requires AtLeast(segs, relocs, s) && relocs != []
    ensures AtLeast(segs, relocs[1..], s) && AtLeast(segs, [], s) && s <= relocs[0].target
    ensures ShiftRelocs(relocs, s) == [relocs[0].(target := Sub32(relocs[0].target, s))] + ShiftRelocs(relocs[1..], s)
  {
  }

  /** Relocating and shifting commute. */
  lemma {:induction false} ShiftAll(segs: seq<Segment>, relocs: seq<Reloc>, s: uint32, d: nat)
    requires AtLeast(segs, relocs, s) && AllHold(segs, relocs)
    ensures AllHold(ShiftSegments(segs, s), ShiftRelocs(relocs, s))
    ensures RelocateAll(ShiftSegments(segs, s), ShiftRelocs(relocs, s), d) == ShiftSegments(RelocateAll(segs, relocs, d), s)
    decreases |relocs|
  {
    hide RelocateOne, CheckedReloc, ShiftSegments, ShiftRelocs, AtLeast, SameShape;
    ShiftHold(segs, relocs, s);
    if relocs != [] {
      var r, q := relocs[0], relocs[0].(target := Sub32(relocs[0].target, s));
      assert CheckedReloc(segs, r);
      TailAtLeast(segs, relocs, s);
      ShiftOne(segs, r, s, d);
      var u := RelocateOne(segs, r, d);
      SameHold(segs, u, relocs);
      SameAtLeast(segs, u, relocs, s);
      TailAtLeast(u, relocs, s);
      ShiftAll(u, relocs[1..], s, d);
      assert ([q] + ShiftRelocs(relocs[1..], s))[1..] == ShiftRelocs(relocs[1..], s);
    }
  }

  lemma ShiftLayout(segs: seq<Segment>, a: Image, b: Image)
    requires segs != [] && SameShape(a.segments, segs) && AtLeast(segs, [], segs[0].address)
    requires b.segments == ShiftSegments(segs, segs[0].address)
    ensures SameLayout(a, b)
  {
  }

  lemma StripBytes(segs: seq<Segment>, relocs: seq<Reloc>, s: uint32, e: uint64, f: uint64)
    requires AtLeast(segs, relocs, s) && AllHold(segs, relocs) && Ordered(relocs) && (WrapSub(0, s) + e) % TWO_64 == f
    ensures var t := ShiftSegments(RelocateAll(segs, relocs, WrapSub(0, s)), s);
            AllHold(t, ShiftRelocs(relocs, s))
            && SameData(RelocateAll(segs, relocs, f), RelocateAll(t, ShiftRelocs(relocs, s), e))
  {
    hide RelocateAll, AllHold, Ordered, AtLeast, SameShape;
    var t := RelocateAll(segs, relocs, WrapSub(0, s));
    SameAtLeast(segs, t, relocs, s);
    MovesTo(segs, relocs, WrapSub(0, s), e, f);
    ShiftAll(t, relocs, s, e);
  }

  lemma StripLoads(img: Image, x: uint64)
    requires Checked(img) && !img.relocsStripped
    ensures StripEmptyPrefix(img).Some? && Checked(StripEmptyPrefix(img).value)
    ensures SameData(Loaded(img, x), Loaded(StripEmptyPrefix(img).value, x))
  {
    hide RelocateAll, StripEmptyPrefix, CheckedSegment, AllHold, Ordered, AtLeast, SameShape, ShiftSegments;
    hide ShiftRelocs, SameData;
    StripChecked(img);
    StripValue(img);
    AboveFirst(img);
    var out, s := StripEmptyPrefix(img).value, img.segments[0].address;
    StripBytes(img.segments, img.relocs, s, WrapSub(x, img.header.baseAddress), WrapSub(x, Anchor(img)));
    assert Anchor(out) == img.header.baseAddress;
  }

  lemma StripPreserves(img: Image)
    requires Checked(img) && !img.relocsStripped
    ensures StripEmptyPrefix(img).Some? && SameMeaning(img, StripEmptyPrefix(img).value)
  {
    hide RelocateAll, StripEmptyPrefix, CheckedSegment, AllHold, Ordered, AtLeast, Loaded, SameData, SameLayout;
    StripChecked(img);
    StripValue(img);
    AboveFirst(img);
    var s := img.segments[0].address;
    var out, t := StripEmptyPrefix(img).value, RelocateAll(img.segments, img.relocs, WrapSub(0, s));
    SameAtLeast(img.segments, t, img.relocs, s);
    ShapeLayout(img, img.(segments := t));
    ShiftLayout(t, img, out);
    forall x: uint64 ensures SameData(Loaded(img, x), Loaded(out, x)) {
      StripLoads(img, x);
    }
  }
}
