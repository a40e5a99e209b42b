/** Which byte sequences are UE relocation tables, and what they do: syntax first, then a run over it (UeScan.c, UeImage.h). */
module UeRelocGrammar {
  import opened Bytes
  import opened Image
  import opened UeScan
  import opened UeScanner

  // ---------------------------------------------------------------- syntax

  /** A head fixup: its type, and the distance to the next head or the end mark. */
  datatype HeadFixup = HeadFixup(ty: nat, next: nat)

  /** A fixup root: the distance to its first fixup, and its heads. */
  datatype FixupRoot = FixupRoot(first: nat, heads: seq<HeadFixup>)

  ghost predicate HeadIs(table: seq<byte>, pos: nat, heads: seq<HeadFixup>, i: nat)
    requires i < |heads| && pos + 2 * |heads| <= |table|
  {
    var h := heads[i];
    && Load(table, pos + 2 * i, 2) == h.ty + 16 * h.next && h.ty < 16
    && (h.next == 0xFFF <==> i == |heads| - 1)
  }

  /** The heads of a root: the last one, and no other, carries the end mark. */
  ghost predicate HeadsAt(table: seq<byte>, pos: nat, heads: seq<HeadFixup>) {
    && heads != [] && pos + 2 * |heads| <= |table|
    && forall i :: 0 <= i < |heads| ==> HeadIs(table, pos, heads, i)
  }

  /** Roots start at multiples of four, and go on until fewer than six bytes are left. */
  ghost predicate RootsAt(table: seq<byte>, pos: nat, roots: seq<FixupRoot>)
    decreases |roots|
  {
    if roots == [] then pos + 6 > |table|
    else
      && pos + 6 <= |table| && Load(table, pos, 4) == roots[0].first
      && HeadsAt(table, pos + 4, roots[0].heads)
      && RootsAt(table, AlignUp(pos + 4 + 2 * |roots[0].heads|, 4), roots[1..])
  }

  // ---------------------------------------------------------------- runs

  /** The heads of a root, one fixup or chain after the other. */
  function RunHeads(s: State, heads: seq<HeadFixup>, chaining: bool): (r: Option<State>)
    requires Loadable(s.segs)
    ensures r.Some? ==> Loadable(r.value.segs)
    decreases |heads|
  {
    if heads == [] then Some(s)
    else
      var f := ScanFixup(s, heads[0].ty, chaining);
      if f.None? then None
      else if |heads| == 1 then f
      else RunHeads(f.value.(target := f.value.target + heads[0].next), heads[1..], chaining)
  }

  function RunRoots(s: State, roots: seq<FixupRoot>, chaining: bool): (r: Option<State>)
    requires Loadable(s.segs)
    decreases |roots|
  {
    if roots == [] then Some(s)
    else if s.target + roots[0].first >= TWO_32 then None
    else
      var h := RunHeads(s.(target := s.target + roots[0].first), roots[0].heads, chaining);
      if h.None? then None else RunRoots(h.value, roots[1..], chaining)
  }

  // ---------------------------------------------------------------- the decoder runs what it reads

  lemma HeadsTail(table: seq<byte>, pos: nat, heads: seq<HeadFixup>)
    requires HeadsAt(table, pos, heads) && |heads| > 1
    ensures HeadsAt(table, pos + 2, heads[1..])
  {
    hide Load;
    var next, rest := pos + 2, heads[1..];
    forall i | 0 <= i < |rest| ensures HeadIs(table, next, rest, i) {
      assert HeadIs(table, pos, heads, i + 1);
    }
  }

  lemma {:induction false} HeadsRun(table: seq<byte>, s: State, pos: nat, heads: seq<HeadFixup>, chaining: bool)
    requires Loadable(s.segs) && pos + 2 <= |table| && HeadsAt(table, pos, heads)
    ensures ScanHeads(table, s, pos, chaining)
            == var r := RunHeads(s, heads, chaining); if r.None? then None else Some((r.value, pos + 2 * |heads|))
    decreases |heads|
  {
    hide ScanFixup, ScanHeads, Loadable, SameShape, Load;
    ScanHeadsStep(table, s, pos, chaining);
    assert HeadIs(table, pos, heads, 0);
    var h := heads[0];
    DivModUnique(h.ty + 16 * h.next, 16, h.next, h.ty);
    var f := ScanFixup(s, h.ty, chaining);
    if f.Some? && |heads| > 1 {
      HeadsTail(table, pos, heads);
      HeadsRun(table, f.value.(target := f.value.target + h.next), pos + 2, heads[1..], chaining);
    }
  }

  lemma {:induction false} HeadsRead(table: seq<byte>, s: State, pos: nat, chaining: bool) returns (heads: seq<HeadFixup>)
    requires Loadable(s.segs) && pos + 2 <= |table| && ScanHeads(table, s, pos, chaining).Some?
    ensures HeadsAt(table, pos, heads)
    decreases |table| - pos
  {
    hide ScanFixup, ScanHeads, Loadable, SameShape, Load;
    ScanHeadsStep(table, s, pos, chaining);
    var fixup := Load(table, pos, 2);
    var h, f := HeadFixup(fixup % 16, fixup / 16), ScanFixup(s, fixup % 16, chaining);
    if fixup / 16 == 0xFFF {
      heads := [h];
      assert HeadIs(table, pos, heads, 0);
    } else {
      var rest := HeadsRead(table, f.value.(target := f.value.target + fixup / 16), pos + 2, chaining);
      heads := [h] + rest;
      HeadsCons(table, pos, h, rest);
    }
  }

  lemma HeadsCons(table: seq<byte>, pos: nat, h: HeadFixup, rest: seq<HeadFixup>)
    requires pos + 2 <= |table| && HeadsAt(table, pos + 2, rest)
    requires Load(table, pos, 2) == h.ty + 16 * h.next && h.ty < 16 && h.next != 0xFFF
    ensures HeadsAt(table, pos, [h] + rest)
  {
    hide Load;
    var heads := [h] + rest;
    forall i | 0 <= i < |heads| ensures HeadIs(table, pos, heads, i) {
      if i > 0 {
        assert HeadIs(table, pos + 2, rest, i - 1);
      }
    }
  }

  lemma {:induction false} RootsRun(table: seq<byte>, s: State, pos: nat, roots: seq<FixupRoot>, chaining: bool)
    requires Loadable(s.segs) && RootsAt(table, pos, roots)
    ensures ScanRoots(table, s, pos, chaining) == RunRoots(s, roots, chaining)
    decreases |roots|
  {
    hide ScanHeads, ScanRoots, Loadable, SameShape, Load, AlignAddend, RunHeads, HeadsAt;
    if roots == [] {
      RootsDone(table, s, pos, chaining);
    } else {
      ScanRootsStep(table, s, pos, chaining);
      var target := s.target + roots[0].first;
      if target < TWO_32 {
        HeadsRun(table, s.(target := target), pos + 4, roots[0].heads, chaining);
        var h := RunHeads(s.(target := target), roots[0].heads, chaining);
        if h.Some? {
          RootsRun(table, h.value, AlignUp(pos + 4 + 2 * |roots[0].heads|, 4), roots[1..], chaining);
        }
      }
    }
  }

  lemma {:induction false} RootsRead(table: seq<byte>, s: State, pos: nat, chaining: bool) returns (roots: seq<FixupRoot>)
    requires Loadable(s.segs) && ScanRoots(table, s, pos, chaining).Some?
    ensures RootsAt(table, pos, roots)
    decreases |table| - pos
  {
    hide ScanHeads, ScanRoots, Loadable, SameShape, Load, AlignAddend, RunHeads, HeadsAt;
    if pos + 6 > |table| {
      roots := [];
    } else {
      ScanRootsStep(table, s, pos, chaining);
      var first := Load(table, pos, 4);
      var u := s.(target := s.target + first);
      var heads := HeadsRead(table, u, pos + 4, chaining);
      HeadsRun(table, u, pos + 4, heads, chaining);
      var h := RunHeads(u, heads, chaining);
      var next := AlignUp(pos + 4 + 2 * |heads|, 4);
      var rest := RootsRead(table, h.value, next, chaining);
      roots := [FixupRoot(first, heads)] + rest;
      assert roots[1..] == rest;
    }
  }

  /**
   * A table decodes to a result exactly if it is a sequence of roots whose heads end with the mark, and running those
   * gives the result.
   */
  lemma TableDecodes(table: seq<byte>, segs: seq<Segment>, chaining: bool, r: State)
    requires Loadable(segs)
    ensures ScanRelocs(table, segs, chaining) == Some(r) <==>
              exists roots :: RootsAt(table, 0, roots) && RunRoots(State([], segs, 0), roots, chaining) == Some(r)
  {
    hide ScanRoots, Loadable, RootsAt, RunRoots;
    var s := State([], segs, 0);
    if roots :| RootsAt(table, 0, roots) && RunRoots(s, roots, chaining) == Some(r) {
      RootsRun(table, s, 0, roots, chaining);
    }
    if ScanRelocs(table, segs, chaining) == Some(r) {
      var roots := RootsRead(table, s, 0, chaining);
      RootsRun(table, s, 0, roots, chaining);
    }
  }

  // ---------------------------------------------------------------- one fixup

  /** A fixup without metadata: type 0 or 2 for 32 bits, 1 for 64 bits, anywhere in the image; nothing is written. */
  lemma PlainFixup(s: State, ty: nat, chaining: bool)
    requires Loadable(s.segs) && (!chaining || ty == 2)
    ensures var n := if ty == 1 then 8 else 4;
            && (ScanFixup(s, ty, chaining).Some? <==> ty <= 2 && s.target + n <= ImageSize(s.segs))
            && (ScanFixup(s, ty, chaining).Some? ==>
                  && s.target < TWO_32
                  && ScanFixup(s, ty, chaining).value
                     == State(s.relocs + [Reloc(if ty == 1 then 10 else 3, s.target)], s.segs, s.target + n))
  {
    hide CheckedSegment;
    LoadableEnd(s.segs, 0);
  }

  /** A fixup of a chain: type 0 or 1, inside one segment; its word gives up value, distance and type of the next one. */
  lemma ChainFixup(s: State, ty: nat)
    requires Loadable(s.segs)
    ensures ChainStep(s, ty).Some? <==> (ty == 1 && Holds(s.segs, s.target, 8)) || (ty == 0 && Holds(s.segs, s.target, 4))
    ensures ChainStep(s, ty).Some? ==>
              var n := if ty == 1 then 8 else 4;
              var w, (t, hdr) := ReadWord(s.segs, s.target, n), ChainStep(s, ty).value;
              && t.relocs == s.relocs + [Reloc(if ty == 1 then 10 else 3, s.target)] && t.target == s.target + n
              && t.segs == WriteWord(s.segs, s.target, n, if ty == 1 then w / 0x1_0000 else w / 0x1000)
              && hdr / 16 == (if ty == 1 then w / 16 % 0x1000 else w % 0x1000)
              && hdr % 16 == (if ty == 1 then w % 16 else 0)
  {
    hide Holds, ReadWord, WriteWord, SameShape, Loadable;
    Pow256Values();
    if ChainStep(s, ty).Some? && ty == 0 {
      ShiftedHeader(ReadWord(s.segs, s.target, 4));
    } else if ChainStep(s, ty).Some? {
      PlainHeader(ReadWord(s.segs, s.target, 8));
    }
  }

  lemma ShiftedHeader(w: nat)
    requires w < TWO_32
    ensures var hdr := (w * 0x10 % TWO_32) % 0x1_0000; hdr / 16 == w % 0x1000 && hdr % 16 == 0
  {
  }

  lemma PlainHeader(w: nat)
    ensures var hdr := w % 0x1_0000; hdr / 16 == w / 16 % 0x1000 && hdr % 16 == w % 16
  {
  }

  /** A chain goes on, with the type and at the distance its words say, until a word carries the end mark. */
  lemma ChainRuns(s: State, ty: nat)
    requires Loadable(s.segs)
    ensures ScanChain(s, ty)
            == var step := ChainStep(s, ty);
               if step.None? then None
               else
                 var (t, hdr) := step.value;
                 if hdr / 16 == 0xFFF then Some(t) else ScanChain(t.(target := t.target + hdr / 16), hdr % 16)
  {
    hide ChainStep, ScanChain, Loadable, SameShape;
    ScanChainStep(s, ty);
  }
}
