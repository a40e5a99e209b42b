/** Moving the first segment to address 0 without changing what the image means (ToolImageStripEmptyPrefix). */
module StripPrefix {
  import opened Bytes
  import opened Image
  import opened Relocation
  import opened Truncation

  /** 32-bit subtraction as the code performs it; on checked images it never wraps (AboveFirst). */
  function Sub32(x: uint32, y: uint32): uint32 {
    if x >= y then x - y else x - y + TWO_32
  }

  function ShiftSegments(segs: seq<Segment>, s: uint32): (t: seq<Segment>)
    ensures |t| == |segs|
    ensures forall i :: 0 <= i < |t| ==> t[i] == segs[i].(address := Sub32(segs[i].address, s))
  {
    if segs == [] then []
    else [segs[0].(address := Sub32(segs[0].address, s))] + ShiftSegments(segs[1..], s)
  }

  function ShiftRelocs(relocs: seq<Reloc>, s: uint32): (t: seq<Reloc>)
    ensures |t| == |relocs|
    ensures forall i :: 0 <= i < |t| ==> t[i] == relocs[i].(target := Sub32(relocs[i].target, s))
  {
    if relocs == [] then []
    else [relocs[0].(target := Sub32(relocs[0].target, s))] + ShiftRelocs(relocs[1..], s)
  }

  ghost predicate AtLeast(segs: seq<Segment>, relocs: seq<Reloc>, s: uint32) {
    && (forall i :: 0 <= i < |segs| ==> s <= segs[i].address)
    && (forall i :: 0 <= i < |relocs| ==> s <= relocs[i].target)
  }

  lemma SameAtLeast(segs: seq<Segment>, t: seq<Segment>, relocs: seq<Reloc>, s: uint32)
    requires SameShape(segs, t) && AtLeast(segs, relocs, s)
    ensures AtLeast(t, relocs, s) && AtLeast(t, [], s)
  {
    forall i | 0 <= i < |t| ensures s <= t[i].address {
      assert t[i].address == segs[i].address;
    }
  }

  lemma AboveFirst(img: Image)
    requires Checked(img)
    ensures AtLeast(img.segments, img.relocs, img.segments[0].address)
  {
    var segs := img.segments;
    forall i | 0 <= i < |segs| ensures segs[0].address <= segs[i].address {
      if i > 0 { TilesOrdered(segs, img.alignment, 0, i); }
    }
    forall i | 0 <= i < |img.relocs| ensures segs[0].address <= img.relocs[i].target {
      assert CheckedReloc(segs, img.relocs[i]);
      var k := Locate(segs, img.relocs[i].target);
      assert segs[0].address <= segs[k].address;
    }
  }

  function Shifted(img: Image, base: uint64, s: uint32): Image {
    img.(header := img.header.(baseAddress := base, entryPoint := Sub32(img.header.entryPoint, s)),
         segments := ShiftSegments(img.segments, s),
         relocs := ShiftRelocs(img.relocs, s))
  }

  /** ToolImageStripEmptyPrefix on a checked image; None is the failure result. */
  function StripEmptyPrefix(img: Image): (r: Option<Image>)
    requires Checked(img)
  {
    var s := img.segments[0].address;
    if img.relocsStripped then None
    else
      var m := Relocate(img, WrapSub(img.header.baseAddress, s), s);
      if m.None? then None else Some(Shifted(m.value, WrapAdd(m.value.header.baseAddress, s), s))
  }

  // ---------------------------------------------------------------- the shift itself

  lemma ShiftLocate(segs: seq<Segment>, s: uint32, a: nat)
    requires AtLeast(segs, [], s) && s <= a
    ensures Locate(ShiftSegments(segs, s), a - s) == Locate(segs, a)
    ensures forall n: nat :: Holds(segs, a, n) == Holds(ShiftSegments(segs, s), a - s, n)
  {
    var t := ShiftSegments(segs, s);
    var i, j := Locate(segs, a), Locate(t, a - s);
    assert i < |segs| ==> InSegment(t[i], a - s);
    assert j < |t| ==> InSegment(segs[j], a);
  }

  lemma ShiftRead(segs: seq<Segment>, s: uint32, a: nat, n: nat)
    requires AtLeast(segs, [], s) && s <= a && Holds(segs, a, n)
    ensures Holds(ShiftSegments(segs, s), a - s, n)
    ensures ReadWord(ShiftSegments(segs, s), a - s, n) == ReadWord(segs, a, n)
  {
    ShiftLocate(segs, s, a);
  }

  lemma ShiftTruncated(segs: seq<Segment>, relocs: seq<Reloc>, s: uint32)
    requires AtLeast(segs, relocs, s)
    requires Truncated(segs, relocs)
    ensures Truncated(ShiftSegments(segs, s), ShiftRelocs(relocs, s))
  {
    var t, q := ShiftSegments(segs, s), ShiftRelocs(relocs, s);
    forall i | 0 <= i < |t| ensures TruncatedSegment(t[i], q) {
      assert TruncatedSegment(segs[i], relocs);
      forall k | 0 <= k < |q| && Inside(t[i], q[k]) ensures q[k].End() <= t[i].address + t[i].unpaddedSize {
        assert Inside(segs[i], relocs[k]);
      }
    }
  }

  lemma ShiftCheckedSegments(segs: seq<Segment>, alignment: nat)
    requires CheckedSegments(segs, alignment)
    requires AtLeast(segs, [], segs[0].address)
    ensures var t := ShiftSegments(segs, segs[0].address);
            CheckedSegments(t, alignment) && t[0].address == 0 && ImageSize(t) == ImageSize(segs) - segs[0].address
  {
    var s := segs[0].address;
    var t := ShiftSegments(segs, s);
    forall i | 0 <= i < |t| ensures CheckedSegment(t, alignment, i) {
      assert CheckedSegment(segs, alignment, i);
    }
    ModSum(s, 0, alignment);
  }

  lemma ShiftCheckedRelocs(segs: seq<Segment>, relocs: seq<Reloc>, s: uint32)
    requires AtLeast(segs, relocs, s)
    requires CheckedRelocs(segs, relocs)
    ensures CheckedRelocs(ShiftSegments(segs, s), ShiftRelocs(relocs, s))
  {
    var t, q := ShiftSegments(segs, s), ShiftRelocs(relocs, s);
    forall k | 0 <= k < |q| ensures CheckedReloc(t, q[k]) {
      assert CheckedReloc(segs, relocs[k]);
      ShiftLocate(segs, s, relocs[k].target);
    }
    forall i, k | 0 <= i < k < |q| ensures q[i].End() <= q[k].target {
      assert relocs[i].End() <= relocs[k].target;
    }
  }

  // ---------------------------------------------------------------- the whole operation

  lemma StripSucceeds(img: Image)
    requires Checked(img)
    ensures StripEmptyPrefix(img).Some? <==> !img.relocsStripped
  {
    var s, b := img.segments[0].address, img.header.baseAddress;
    AboveFirst(img);
    Pow2Divides64(img.alignment);
    ModSum(s, b, img.alignment);
    ModMod(b - s, TWO_64, img.alignment);
    assert WrapSub(b, s) == (b - s) % TWO_64;
    assert Aligned(WrapSub(b, s), img.alignment);
    assert WrapAdd(WrapSub(b, s), s) == b;
  }

  lemma StripRelocates(img: Image)
    requires Checked(img) && !img.relocsStripped
    ensures var s, b := img.segments[0].address, img.header.baseAddress;
            Relocate(img, WrapSub(b, s), s) ==
            Some(img.(segments := RelocateAll(img.segments, img.relocs, WrapSub(0, s)),
                      header := img.header.(baseAddress := WrapSub(b, s))))
  {
    var s, b := img.segments[0].address, img.header.baseAddress;
    StripSucceeds(img);
    hide RelocateAll, CheckedSegments, AllHold, Ordered, CheckedHeader, Shifted;
    RelocateValue(img, WrapSub(b, s), s);
    assert WrapSub(WrapSub(b, s), b) == WrapSub(0, s);
  }

  /** The result in closed form: every relocated word and every address moves down by s, the base stays. */
  lemma StripValue(img: Image)
    requires Checked(img) && !img.relocsStripped
    ensures var s := img.segments[0].address;
            StripEmptyPrefix(img) ==
            Some(Shifted(img.(segments := RelocateAll(img.segments, img.relocs, WrapSub(0, s))),
                         img.header.baseAddress, s))
  {
    hide Relocate, RelocateAll, CheckedSegments, CheckedHeader, AllHold, Ordered, ShiftSegments, ShiftRelocs;
    StripRelocates(img);
  }

  /** CheckToolImage accepts the result, whose first segment is at address 0. */
  lemma StripChecked(img: Image)
    requires Checked(img) && !img.relocsStripped
    ensures StripEmptyPrefix(img).Some? && Checked(StripEmptyPrefix(img).value)
    ensures StripEmptyPrefix(img).value.segments[0].address == 0
  {
    var s := img.segments[0].address;
    var t := RelocateAll(img.segments, img.relocs, WrapSub(0, s));
    StripValue(img);
    AboveFirst(img);
    SameAtLeast(img.segments, t, img.relocs, s);
    SameHold(img.segments, t, img.relocs);
    SameChecked(img.segments, t, img.alignment);
    ShiftChecked(img.(segments := t));
  }

  lemma ShiftChecked(img: Image)
    requires Checked(img) && AtLeast(img.segments, img.relocs, img.segments[0].address)
    ensures Checked(Shifted(img, img.header.baseAddress, img.segments[0].address))
    ensures Shifted(img, img.header.baseAddress, img.segments[0].address).segments[0].address == 0
  {
    ShiftCheckedSegments(img.segments, img.alignment);
    ShiftCheckedRelocs(img.segments, img.relocs, img.segments[0].address);
  }

  lemma ShiftedWord(img: Image, base: uint64, s: uint32, k: nat)
    requires AtLeast(img.segments, img.relocs, s) && k < |img.relocs|
    requires Holds(img.segments, img.relocs[k].target, RelocSize(img.relocs[k].ty))
    ensures var out, n := Shifted(img, base, s), RelocSize(img.relocs[k].ty);
            && Holds(out.segments, out.relocs[k].target, n)
            && ReadWord(out.segments, out.relocs[k].target, n) == ReadWord(img.segments, img.relocs[k].target, n)
  {
    ShiftRead(img.segments, s, img.relocs[k].target, RelocSize(img.relocs[k].ty));
  }

  lemma StripWord(img: Image, k: nat)
    requires Checked(img) && !img.relocsStripped && k < |img.relocs|
    ensures StripEmptyPrefix(img).Some?
    ensures var out, s, n := StripEmptyPrefix(img).value, img.segments[0].address, RelocSize(img.relocs[k].ty);
            && (n == 4 || n == 8)
            && |out.relocs| == |img.relocs|
            && Holds(img.segments, img.relocs[k].target, n)
            && Holds(out.segments, out.relocs[k].target, n)
            && ReadWord(out.segments, out.relocs[k].target, n)
            == Adjust(ReadWord(img.segments, img.relocs[k].target, n), WrapSub(0, s), n)
  {
    var s := img.segments[0].address;
    assert CheckedReloc(img.segments, img.relocs[k]);
    StripValue(img);
    AboveFirst(img);
    OrderedApart(img.relocs);
    RelocateAllWord(img.segments, img.relocs, WrapSub(0, s), k);
    var t := RelocateAll(img.segments, img.relocs, WrapSub(0, s));
    SameAtLeast(img.segments, t, img.relocs, s);
    hide StripEmptyPrefix, RelocateAll, Checked, Holds, Adjust, Shifted, AtLeast, PairwiseApart;
    ShiftedWord(img.(segments := t), img.header.baseAddress, s, k);
    assert StripEmptyPrefix(img).value == Shifted(img.(segments := t), img.header.baseAddress, s);
  }

  /** Every stored address keeps its distance from the base and from every segment. */
  lemma StripMeaning(img: Image, k: nat, i: nat)
    requires Checked(img) && !img.relocsStripped && k < |img.relocs| && i < |img.segments|
    ensures StripEmptyPrefix(img).Some?
    ensures var out, n := StripEmptyPrefix(img).value, RelocSize(img.relocs[k].ty);
            && |out.relocs| == |img.relocs| && |out.segments| == |img.segments|
            && Holds(img.segments, img.relocs[k].target, n)
            && Holds(out.segments, out.relocs[k].target, n)
            && (ReadWord(out.segments, out.relocs[k].target, n)
                  - out.header.baseAddress - out.segments[i].address) % Pow256(n)
            == (ReadWord(img.segments, img.relocs[k].target, n)
                  - img.header.baseAddress - img.segments[i].address) % Pow256(n)
  {
    hide StripEmptyPrefix, RelocateAll, CheckedHeader, AllHold, Holds, Adjust, WrapSub;
    var s, n := img.segments[0].address, RelocSize(img.relocs[k].ty);
    StripWord(img, k);
    StripValue(img);
    AboveFirst(img);
    WordShift(ReadWord(img.segments, img.relocs[k].target, n), s, n,
              img.header.baseAddress + img.segments[i].address);
  }

  lemma WordShift(w: nat, s: uint32, n: nat, y: nat)
    requires n == 4 || n == 8
    ensures (Adjust(w, WrapSub(0, s), n) - (y - s)) % Pow256(n) == (w - y) % Pow256(n)
  {
    Pow256Values();
    var m := Pow256(n);
    var w' := Adjust(w, WrapSub(0, s), n);
    assert (w' + s - w) % m == 0;
    ModSum(w' + s - w, w - y, m);
  }

  /** Every byte no relocation covers is kept. */
  lemma StripFrame(img: Image, i: nat, j: nat)
    requires Checked(img) && !img.relocsStripped && i < |img.segments| && j < |img.segments[i].data|
    requires forall k :: 0 <= k < |img.relocs| ==>
      !(img.relocs[k].target <= img.segments[i].address + j < img.relocs[k].End())
    ensures StripEmptyPrefix(img).Some?
    ensures var out := StripEmptyPrefix(img).value;
            |out.segments| == |img.segments| && |out.segments[i].data| == |img.segments[i].data|
            && out.segments[i].data[j] == img.segments[i].data[j]
  {
    StripValue(img);
    RelocateAllFrame(img.segments, img.relocs, WrapSub(0, img.segments[0].address), i, j);
  }

  /** The sizes computed before the prefix is stripped stay right. */
  lemma StripTruncated(img: Image)
    requires Checked(img) && !img.relocsStripped && Truncated(img.segments, img.relocs)
    ensures StripEmptyPrefix(img).Some?
    ensures var out := StripEmptyPrefix(img).value; Truncated(out.segments, out.relocs)
  {
    hide StripEmptyPrefix, RelocateAll, Truncated, CheckedHeader;
    var s := img.segments[0].address;
    StripValue(img);
    AboveFirst(img);
    TruncatedRelocates(img.segments, img.alignment, img.relocs, WrapSub(0, s));
    var t := RelocateAll(img.segments, img.relocs, WrapSub(0, s));
    SameAtLeast(img.segments, t, img.relocs, s);
    ShiftTruncated(t, img.relocs, s);
  }

  // ---------------------------------------------------------------- powers of two

  lemma {:induction false} Pow2Divides(a: nat, m: nat)
    requires IsPow2(a) && IsPow2(m) && a <= m
    ensures m % a == 0
    decreases a
  {
    if a != 1 {
      Pow2Divides(a / 2, m / 2);
      var q := (m / 2) / (a / 2);
      assert m == a * q;
      DivModUnique(m, a, q, 0);
    }
  }

  lemma DoublePow2(x: nat)
    requires IsPow2(x)
    ensures IsPow2(2 * x)
  {
  }

  lemma {:induction false} Pow256IsPow2(n: nat)
    ensures IsPow2(Pow256(n))
  {
    if n != 0 {
      Pow256IsPow2(n - 1);
      var x := Pow256(n - 1);
      DoublePow2(x);
      DoublePow2(2 * x);
      DoublePow2(4 * x);
      DoublePow2(8 * x);
      DoublePow2(16 * x);
      DoublePow2(32 * x);
      DoublePow2(64 * x);
      DoublePow2(128 * x);
    }
  }

  lemma Pow2Divides64(a: nat)
    requires IsPow2(a) && a <= TWO_64
    ensures TWO_64 % a == 0
  {
    Pow256Values();
    Pow256IsPow2(8);
    Pow2Divides(a, TWO_64);
  }
}
