/** Relocating an image as an action on its bytes (ToolImageRelocate, Image.c). */
module Relocation {
  import opened Bytes
  import opened Image

  ghost predicate Apart(r: Reloc, q: Reloc) {
    Disjoint(r.target, RelocSize(r.ty), q.target, RelocSize(q.ty))
  }

  ghost predicate PairwiseApart(relocs: seq<Reloc>) {
    forall i, j :: 0 <= i < j < |relocs| ==> Apart(relocs[i], relocs[j])
  }

  lemma OrderedApart(relocs: seq<Reloc>)
    requires Ordered(relocs)
    ensures PairwiseApart(relocs)
  {
  }

  lemma SameHoldOne(s: seq<Segment>, t: seq<Segment>, r: Reloc)
    requires SameShape(s, t) && CheckedReloc(s, r)
    ensures CheckedReloc(t, r)
  {
    SameLocate(s, t, r.target);
  }

  lemma SameHold(s: seq<Segment>, t: seq<Segment>, relocs: seq<Reloc>)
    requires SameShape(s, t) && AllHold(s, relocs)
    ensures AllHold(t, relocs)
  {
    forall i | 0 <= i < |relocs| ensures CheckedReloc(t, relocs[i]) {
      SameHoldOne(s, t, relocs[i]);
    }
  }

  function Rem(x: nat, m: nat): (r: nat)
    requires m > 0
  {
    x % m
  }

  /** Addition in the width of the word; a 32-bit word sees the adjustment truncated to 32 bits. */
  function Adjust(word: nat, adjust: nat, n: nat): (r: nat)
    ensures r < Pow256(n)
  {
    Rem(word + Rem(adjust, Pow256(n)), Pow256(n))
  }

  function RelocateOne(segs: seq<Segment>, r: Reloc, adjust: nat): (t: seq<Segment>)
    requires CheckedReloc(segs, r)
    ensures SameShape(segs, t)
  {
    var n := RelocSize(r.ty);
    WriteWord(segs, r.target, n, Adjust(ReadWord(segs, r.target, n), adjust, n))
  }

  function RelocateAll(segs: seq<Segment>, relocs: seq<Reloc>, adjust: nat): (t: seq<Segment>)
    requires AllHold(segs, relocs)
    ensures SameShape(segs, t)
    decreases |relocs|
  {
    if relocs == [] then segs
    else
      var u := RelocateOne(segs, relocs[0], adjust);
      SameHold(segs, u, relocs);
      RelocateAll(u, relocs[1..], adjust)
  }

  function WrapAdd(x: uint64, y: uint32): (r: uint64)
  {
    if x + y < TWO_64 then x + y else x + y - TWO_64
  }

  function WrapSub(x: uint64, y: uint64): (r: uint64)
  {
    if x >= y then x - y else x - y + TWO_64
  }

  /** ToolImageRelocate on a checked image; None is the failure result. */
  function Relocate(img: Image, base: uint64, ignorePrefix: uint32): (r: Option<Image>)
    requires CheckedSegments(img.segments, img.alignment) && AllHold(img.segments, img.relocs)
  {
    var adjust := WrapSub(base, img.header.baseAddress);
    var size := ImageSize(img.segments);
    assert CheckedSegment(img.segments, img.alignment, |img.segments| - 1);
    if !Aligned(base, img.alignment) then None
    else if adjust == 0 then Some(img)
    else if WrapAdd(base, size) < WrapAdd(base, ignorePrefix) then None
    else Some(img.(segments := RelocateAll(img.segments, img.relocs, adjust),
                   header := img.header.(baseAddress := base)))
  }

  // ---------------------------------------------------------------- single words

  lemma {:induction false} AdjustAdjust(word: nat, d: nat, e: nat, n: nat)
    ensures Adjust(Adjust(word, d, n), e, n) == Adjust(word, d + e, n)
  {
    hide Pow256, Rem;
    RemSum(word, d, e, Pow256(n));
  }

  /** Both sides are the remainder of word + d + e. */
  lemma RemSum(word: nat, d: nat, e: nat, m: nat)
    requires m > 0
    ensures Rem(Rem(word + Rem(d, m), m) + Rem(e, m), m) == Rem(word + Rem(d + e, m), m)
  {
    hide Rem;
    Residue(word + Rem(d, m), Rem(e, m), m);
    Residue(d, word + Rem(e, m), m);
    Residue(e, word + d, m);
    Residue(d + e, word, m);
  }

  /** Replacing a summand by its remainder does not change the sum's remainder. */
  lemma Residue(x: nat, y: nat, m: nat)
    requires m > 0
    ensures Rem(Rem(x, m) + y, m) == Rem(x + y, m)
  {
    var z, r := m * (x / m), x % m;
    DivModUnique(z, m, x / m, 0);
    RemainderOnly(z, r, y, m);
  }

  lemma RemainderOnly(z: nat, r: nat, y: nat, m: nat)
    requires m > 0 && z % m == 0
    ensures (z + r + y) % m == (r + y) % m
  {
    ModSum(z, r + y, m);
  }

  /** Only the adjustment modulo 2^64 matters, also to 32-bit words. */
  lemma AdjustMod64(word: nat, d: nat, n: nat)
    requires n == 4 || n == 8
    ensures Adjust(word, d % TWO_64, n) == Adjust(word, d, n)
  {
    Pow256Values();
    ModMod(d, TWO_64, Pow256(n));
  }

  lemma AdjustZero(word: nat, n: nat)
    requires word < Pow256(n)
    ensures Adjust(word, 0, n) == word
  {
    DivModUnique(0, Pow256(n), 0, 0);
    DivModUnique(word, Pow256(n), 0, word);
  }

  // ---------------------------------------------------------------- one relocation against the others

  lemma OneOneSame(segs: seq<Segment>, r: Reloc, d: nat, e: nat)
    requires CheckedReloc(segs, r)
    ensures CheckedReloc(RelocateOne(segs, r, d), r)
    ensures RelocateOne(RelocateOne(segs, r, d), r, e) == RelocateOne(segs, r, d + e)
  {
    var n := RelocSize(r.ty);
    var w := ReadWord(segs, r.target, n);
    ReadWriteSame(segs, r.target, n, Adjust(w, d, n));
    WriteWriteSame(segs, r.target, n, Adjust(w, d, n), Adjust(Adjust(w, d, n), e, n));
    AdjustAdjust(w, d, e, n);
  }

  lemma OneOneApart(segs: seq<Segment>, r: Reloc, d: nat, q: Reloc, e: nat)
    requires CheckedReloc(segs, r) && CheckedReloc(segs, q) && Apart(r, q)
    ensures CheckedReloc(RelocateOne(segs, r, d), q) && CheckedReloc(RelocateOne(segs, q, e), r)
    ensures RelocateOne(RelocateOne(segs, r, d), q, e) == RelocateOne(RelocateOne(segs, q, e), r, d)
  {
    var n, m := RelocSize(r.ty), RelocSize(q.ty);
    var v := Adjust(ReadWord(segs, r.target, n), d, n);
    var w := Adjust(ReadWord(segs, q.target, m), e, m);
    ReadWriteOther(segs, r.target, n, v, q.target, m);
    ReadWriteOther(segs, q.target, m, w, r.target, n);
    WriteWriteOther(segs, r.target, n, v, q.target, m, w);
  }

  /** A relocation apart from all of relocs may be applied before them instead of after them. */
  lemma {:induction false} OneAllApart(segs: seq<Segment>, relocs: seq<Reloc>, d: nat, r: Reloc, e: nat)
    requires AllHold(segs, relocs) && CheckedReloc(segs, r)
    requires forall i :: 0 <= i < |relocs| ==> Apart(r, relocs[i])
    ensures CheckedReloc(RelocateAll(segs, relocs, d), r) && AllHold(RelocateOne(segs, r, e), relocs)
    ensures RelocateOne(RelocateAll(segs, relocs, d), r, e) == RelocateAll(RelocateOne(segs, r, e), relocs, d)
    decreases |relocs|
  {
    SameHoldOne(segs, RelocateAll(segs, relocs, d), r);
    SameHold(segs, RelocateOne(segs, r, e), relocs);
    if relocs != [] {
      var q, rest := relocs[0], relocs[1..];
      var u, v := RelocateOne(segs, q, d), RelocateOne(segs, r, e);
      SameHold(segs, u, rest);
      SameHoldOne(segs, u, r);
      OneAllApart(u, rest, d, r, e);
      OneOneApart(segs, q, d, r, e);
      assert RelocateAll(segs, relocs, d) == RelocateAll(u, rest, d);
      assert RelocateAll(v, relocs, d) == RelocateAll(RelocateOne(v, q, d), rest, d);
    }
  }

  // ---------------------------------------------------------------- relocation is an action

  lemma {:induction false} RelocateAllAdds(segs: seq<Segment>, relocs: seq<Reloc>, d: nat, e: nat)
    requires AllHold(segs, relocs) && PairwiseApart(relocs)
    ensures AllHold(RelocateAll(segs, relocs, d), relocs)
    ensures RelocateAll(RelocateAll(segs, relocs, d), relocs, e) == RelocateAll(segs, relocs, d + e)
    decreases |relocs|
  {
    SameHold(segs, RelocateAll(segs, relocs, d), relocs);
    if relocs != [] {
      var r, rest := relocs[0], relocs[1..];
      var u := RelocateOne(segs, r, d);
      SameHold(segs, u, relocs);
      OneAllApart(u, rest, d, r, e);
      OneOneSame(segs, r, d, e);
      var v := RelocateOne(u, r, e);
      SameHold(u, v, rest);
      RelocateAllAdds(v, rest, d, e);
    }
  }

  lemma {:induction false} RelocateAllZero(segs: seq<Segment>, relocs: seq<Reloc>)
    requires AllHold(segs, relocs)
    ensures RelocateAll(segs, relocs, 0) == segs
    decreases |relocs|
  {
    if relocs != [] {
      var n := RelocSize(relocs[0].ty);
      AdjustZero(ReadWord(segs, relocs[0].target, n), n);
      WriteRead(segs, relocs[0].target, n);
      RelocateAllZero(segs, relocs[1..]);
    }
  }

  lemma {:induction false} RelocateAllMod64(segs: seq<Segment>, relocs: seq<Reloc>, d: nat)
    requires AllHold(segs, relocs)
    ensures RelocateAll(segs, relocs, d % TWO_64) == RelocateAll(segs, relocs, d)
    decreases |relocs|
  {
    if relocs != [] {
      var n := RelocSize(relocs[0].ty);
      AdjustMod64(ReadWord(segs, relocs[0].target, n), d, n);
      var u := RelocateOne(segs, relocs[0], d);
      SameHold(segs, u, relocs);
      RelocateAllMod64(u, relocs[1..], d);
    }
  }

  /** On a checked image a move fails only for a misaligned base or an image that would wrap around. */
  lemma RelocateSucceeds(img: Image, base: uint64)
    requires Checked(img)
    ensures Relocate(img, base, 0).Some? <==>
            Aligned(base, img.alignment) && base + ImageSize(img.segments) < TWO_64
  {
  }

  lemma RelocateChecked(img: Image, base: uint64)
    requires Checked(img)
    ensures Relocate(img, base, 0).Some? ==>
              var r := Relocate(img, base, 0).value;
              Checked(r) && r == img.(segments := r.segments, header := img.header.(baseAddress := base))
  {
    if Relocate(img, base, 0).Some? && base != img.header.baseAddress {
      RelocateSucceeds(img, base);
      var t := RelocateAll(img.segments, img.relocs, WrapSub(base, img.header.baseAddress));
      SameHold(img.segments, t, img.relocs);
      SameChecked(img.segments, t, img.alignment);
    }
  }

  /** The result in closed form, also when the base does not change. */
  lemma RelocateValue(img: Image, base: uint64, ignorePrefix: uint32)
    requires CheckedSegments(img.segments, img.alignment) && AllHold(img.segments, img.relocs)
    requires Relocate(img, base, ignorePrefix).Some?
    ensures Relocate(img, base, ignorePrefix).value ==
            img.(segments := RelocateAll(img.segments, img.relocs, WrapSub(base, img.header.baseAddress)),
                 header := img.header.(baseAddress := base))
  {
    RelocateAllZero(img.segments, img.relocs);
  }

  /** Two moves whose sum, in 64 bits, is a third one. */
  lemma MovesTo(segs: seq<Segment>, relocs: seq<Reloc>, d: uint64, e: uint64, f: uint64)
    requires AllHold(segs, relocs) && Ordered(relocs) && (d + e) % TWO_64 == f
    ensures AllHold(RelocateAll(segs, relocs, d), relocs)
    ensures RelocateAll(RelocateAll(segs, relocs, d), relocs, e) == RelocateAll(segs, relocs, f)
  {
    OrderedApart(relocs);
    RelocateAllAdds(segs, relocs, d, e);
    RelocateAllMod64(segs, relocs, d + e);
  }

  /** Moving to b1 and then to b2 is moving to b2. */
  lemma RelocateCompose(img: Image, b1: uint64, b2: uint64)
    requires Checked(img) && Relocate(img, b1, 0).Some?
    requires (RelocateChecked(img, b1); Relocate(Relocate(img, b1, 0).value, b2, 0).Some?)
    ensures Relocate(Relocate(img, b1, 0).value, b2, 0) == Relocate(img, b2, 0)
  {
    hide RelocateAll, WrapSub;
    RelocateChecked(img, b1);
    var m := Relocate(img, b1, 0).value;
    RelocateValue(img, b1, 0);
    RelocateSucceeds(m, b2);
    SameChecked(img.segments, m.segments, img.alignment);
    RelocateSucceeds(img, b2);
    RelocateValue(img, b2, 0);
    RelocateValue(m, b2, 0);
    var b0 := img.header.baseAddress;
    WrapSum(b0, b1, b2);
    MovesTo(img.segments, img.relocs, WrapSub(b1, b0), WrapSub(b2, b1), WrapSub(b2, b0));
  }

  lemma WrapSum(b0: uint64, b1: uint64, b2: uint64)
    ensures (WrapSub(b1, b0) + WrapSub(b2, b1)) % TWO_64 == WrapSub(b2, b0)
  {
  }

  /** Moving away and back restores every byte. */
  lemma RelocateBack(img: Image, base: uint64)
    requires Checked(img) && Relocate(img, base, 0).Some?
    ensures (RelocateChecked(img, base);
             Relocate(Relocate(img, base, 0).value, img.header.baseAddress, 0) == Some(img))
  {
    RelocateChecked(img, base);
    var m := Relocate(img, base, 0).value;
    RelocateValue(img, base, 0);
    SameChecked(img.segments, m.segments, img.alignment);
    RelocateSucceeds(m, img.header.baseAddress);
    RelocateCompose(img, base, img.header.baseAddress);
  }

  // ---------------------------------------------------------------- frame and order

  /** A byte whose address no relocation covers is never changed. */
  lemma {:induction false} RelocateAllFrame(segs: seq<Segment>, relocs: seq<Reloc>, d: nat, i: nat, j: nat)
    requires AllHold(segs, relocs) && i < |segs| && j < |segs[i].data|
    requires forall k :: 0 <= k < |relocs| ==> !(relocs[k].target <= segs[i].address + j < relocs[k].End())
    ensures RelocateAll(segs, relocs, d)[i].data[j] == segs[i].data[j]
    decreases |relocs|
  {
    if relocs != [] {
      var u := RelocateOne(segs, relocs[0], d);
      SameHold(segs, u, relocs);
      RelocateAllFrame(u, relocs[1..], d, i, j);
    }
  }

  /** What relocation does to the word of each relocation. */
  lemma {:induction false} RelocateAllWord(segs: seq<Segment>, relocs: seq<Reloc>, d: nat, k: nat)
    requires AllHold(segs, relocs) && PairwiseApart(relocs) && k < |relocs|
    ensures var r, n := relocs[k], RelocSize(relocs[k].ty);
            var t := RelocateAll(segs, relocs, d);
            Holds(t, r.target, n) && ReadWord(t, r.target, n) == Adjust(ReadWord(segs, r.target, n), d, n)
  {
    hide PairwiseApart, Without, Holds, SameShape;
    var r, others := relocs[k], Without(relocs, k);
    var n := RelocSize(r.ty);
    RelocateFirst(segs, relocs, d, k);
    var w := ReadWord(segs, r.target, n);
    ReadWriteSame(segs, r.target, n, Adjust(w, d, n));
    WithoutAparts(relocs, k);
    WordUnchanged(RelocateOne(segs, r, d), others, d, r.target, n);
  }

  /** A word apart from every relocation keeps its value. */
  lemma {:induction false} WordUnchanged(segs: seq<Segment>, relocs: seq<Reloc>, d: nat, a: nat, n: nat)
    requires AllHold(segs, relocs) && Holds(segs, a, n)
    requires forall i :: 0 <= i < |relocs| ==> Disjoint(relocs[i].target, RelocSize(relocs[i].ty), a, n)
    ensures Holds(RelocateAll(segs, relocs, d), a, n)
    ensures ReadWord(RelocateAll(segs, relocs, d), a, n) == ReadWord(segs, a, n)
    decreases |relocs|
  {
    if relocs != [] {
      var q, m := relocs[0], RelocSize(relocs[0].ty);
      var u := RelocateOne(segs, q, d);
      SameHold(segs, u, relocs);
      ReadWriteOther(segs, q.target, m, Adjust(ReadWord(segs, q.target, m), d, m), a, n);
      WordUnchanged(u, relocs[1..], d, a, n);
    }
  }

  lemma WithoutAparts(relocs: seq<Reloc>, k: nat)
    requires PairwiseApart(relocs) && k < |relocs|
    ensures var others := Without(relocs, k);
            forall i :: 0 <= i < |others| ==>
              Disjoint(others[i].target, RelocSize(others[i].ty), relocs[k].target, RelocSize(relocs[k].ty))
  {
    var others := Without(relocs, k);
    forall i | 0 <= i < |others|
      ensures Disjoint(others[i].target, RelocSize(others[i].ty), relocs[k].target, RelocSize(relocs[k].ty))
    {
      var i' := if i < k then i else i + 1;
      assert others[i] == relocs[i'];
      assert if i' < k then Apart(relocs[i'], relocs[k]) else Apart(relocs[k], relocs[i']);
    }
  }

  function Without<T>(s: seq<T>, k: nat): seq<T>
    requires k < |s|
  {
    s[..k] + s[k + 1..]
  }

  /** Any one relocation may be taken out of the list and applied first. */
  lemma {:induction false} RelocateFirst(segs: seq<Segment>, relocs: seq<Reloc>, d: nat, k: nat)
    requires AllHold(segs, relocs) && PairwiseApart(relocs) && k < |relocs|
    ensures AllHold(RelocateOne(segs, relocs[k], d), Without(relocs, k))
    ensures RelocateAll(segs, relocs, d)
         == RelocateAll(RelocateOne(segs, relocs[k], d), Without(relocs, k), d)
    decreases |relocs|
  {
    hide RelocateOne, Holds, SameShape;
    var r, others := relocs[k], Without(relocs, k);
    var v := RelocateOne(segs, r, d);
    assert AllHold(segs, others);
    SameHold(segs, v, others);
    if k == 0 {
      assert others == relocs[1..];
    } else {
      var q, rest := relocs[0], relocs[1..];
      var u := RelocateOne(segs, q, d);
      SameHold(segs, u, rest);
      assert Apart(q, r);
      OneOneApart(segs, q, d, r, d);
      assert PairwiseApart(rest) by {
        forall i, j | 0 <= i < j < |rest| ensures Apart(rest[i], rest[j]) {
          assert rest[i] == relocs[i + 1] && rest[j] == relocs[j + 1];
        }
      }
      RelocateFirst(u, rest, d, k - 1);
      assert others[0] == q && others[1..] == Without(rest, k - 1);
    }
  }

  lemma WithoutMultiset<T>(s: seq<T>, k: nat)
    requires k < |s|
    ensures multiset(Without(s, k)) == multiset(s) - multiset{s[k]}
  {
    assert s == s[..k] + [s[k]] + s[k + 1..];
  }

  lemma WithoutApart(relocs: seq<Reloc>, k: nat)
    requires PairwiseApart(relocs) && k < |relocs|
    ensures PairwiseApart(Without(relocs, k))
  {
    var others := Without(relocs, k);
    forall i, j | 0 <= i < j < |others| ensures Apart(others[i], others[j]) {
      var i' := if i < k then i else i + 1;
      var j' := if j < k then j else j + 1;
      assert others[i] == relocs[i'] && others[j] == relocs[j'];
    }
  }

  lemma PermHold(segs: seq<Segment>, relocs: seq<Reloc>, perm: seq<Reloc>)
    requires AllHold(segs, relocs) && multiset(perm) == multiset(relocs)
    ensures AllHold(segs, perm)
  {
    forall i | 0 <= i < |perm| ensures CheckedReloc(segs, perm[i]) {
      assert perm[i] in multiset(perm);
    }
  }

  /** The result does not depend on the order the relocations are applied in. */
  lemma {:induction false} RelocateAnyOrder(segs: seq<Segment>, relocs: seq<Reloc>, perm: seq<Reloc>, d: nat)
    requires AllHold(segs, relocs) && PairwiseApart(relocs) && multiset(perm) == multiset(relocs)
    ensures AllHold(segs, perm)
    ensures RelocateAll(segs, perm, d) == RelocateAll(segs, relocs, d)
    decreases |perm|
  {
    hide RelocateOne, Holds, SameShape, PairwiseApart, CheckedReloc, Without;
    PermHold(segs, relocs, perm);
    assert |perm| == |multiset(perm)| == |multiset(relocs)| == |relocs|;
    if perm != [] {
      assert perm[0] in multiset(perm);
      var k :| 0 <= k < |relocs| && relocs[k] == perm[0];
      RelocateFirst(segs, relocs, d, k);
      WithoutApart(relocs, k);
      WithoutMultiset(relocs, k);
      assert perm == [perm[0]] + perm[1..];
      var u := RelocateOne(segs, perm[0], d);
      RelocateAnyOrder(u, Without(relocs, k), perm[1..], d);
    }
  }
}
