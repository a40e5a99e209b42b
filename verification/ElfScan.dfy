/** The two passes over an ELF section table: counting, then filling what was allocated from the counts (ElfScan.c). */
module ElfScan {
  import opened Bytes
  import opened Image

  const SHT_PROGBITS := 1
  const SHT_RELA := 4
  const SHT_NOBITS := 8
  const SHT_REL := 9

  datatype Machine = X64 | AArch64 | I386 | Arm

  /** A relocation entry: its type and the virtual address it applies to. */
  datatype Rel = Rel(ty: nat, offset: nat)

  /** A section header with the entries its relocation loop visits. */
  datatype Section = Section(
    ty: nat,
    alloc: bool,
    write: bool,
    execute: bool,
    info: nat,
    addr: nat,
    align: nat,
    rels: seq<Rel>
  )

  datatype Context = Context(machine: Machine, sections: seq<Section>, alignment: nat, base: nat, hasPieRelocs: bool)

  const MAX_PE_ALIGNMENT := 0x1_0000

  // ---------------------------------------------------------------- the decisions both passes make

  /** What the filling pass does with a relocation type. */
  datatype Translation = Skip | Keep(ty: byte) | Unsupported

  function Translate(machine: Machine, ty: nat): (t: Translation) {
    match machine
    case X64 =>
      if ty in {1, 8} then Keep(REL_DIR64)
      else if ty == 10 then Keep(REL_HIGHLOW)
      else if ty in {0, 2, 4, 9, 11, 41, 42} then Skip
      else Unsupported
    case AArch64 =>
      if ty in {257, 1027} then Keep(REL_DIR64)
      else if ty == 258 then Keep(REL_HIGHLOW)
      else if ty in {0, 256, 260, 261, 262, 273, 274, 275, 277, 278, 280, 282, 283, 284, 285, 286, 299, 310, 311, 312, 313}
      then Skip
      else Unsupported
    case I386 =>
      if ty == 1 then Keep(REL_HIGHLOW) else if ty in {0, 2, 4} then Skip else Unsupported
    case Arm =>
      if ty == 2 then Keep(REL_HIGHLOW)
      else if ty in {0, 1, 3, 10, 15, 28, 29, 30, 42, 45, 46} || 49 <= ty <= 54 || 56 <= ty <= 69
              || ty in {102, 103, 104, 105, 107}
      then Skip
      else Unsupported
  }

  /** The types the tool knows. */
  predicate Known(machine: Machine, ty: nat) {
    match machine
    case X64 => ty <= 2 || ty == 4 || 8 <= ty <= 11 || ty == 41 || ty == 42
    case AArch64 =>
      || ty == 0 || 256 <= ty <= 258 || 260 <= ty <= 262 || 273 <= ty <= 275 || ty == 277 || ty == 278 || ty == 280
      || 282 <= ty <= 286 || ty == 299 || 310 <= ty <= 313 || ty == 1027
    case I386 => ty <= 2 || ty == 4
    case Arm =>
      || ty <= 3 || ty == 10 || ty == 15 || 28 <= ty <= 30 || ty == 42 || ty == 45 || ty == 46 || 49 <= ty <= 54
      || 56 <= ty <= 69 || 102 <= ty <= 105 || ty == 107
  }

  lemma KnownTypes(machine: Machine, ty: nat)
    ensures Translate(machine, ty).Unsupported? <==> !Known(machine, ty)
  {
  }

  /** What the counting pass allocates space for. */
  predicate Counts(machine: Machine, ty: nat) {
    match machine
    case X64 => ty in {1, 8, 9, 10, 41, 42}
    case AArch64 => ty in {257, 258, 1027}
    case I386 => ty == 1
    case Arm => ty == 2
  }

  /** Entries of the global offset table: counted, but not kept. */
  predicate GotEntry(machine: Machine, ty: nat) { machine == X64 && ty in {9, 41, 42} }

  lemma KeptIsCounted(machine: Machine, ty: nat)
    ensures Counts(machine, ty) <==> Translate(machine, ty).Keep? || GotEntry(machine, ty)
    ensures GotEntry(machine, ty) ==> Translate(machine, ty).Skip?
  {
  }

  /** The fields that are relocated: 64-bit addresses, 32-bit addresses, and nothing else. */
  function FieldWidth(machine: Machine, ty: nat): (bytes: nat) {
    match (machine, ty)
    case (X64, 1) => 8         // R_X86_64_64
    case (X64, 8) => 8         // R_X86_64_RELATIVE
    case (X64, 10) => 4        // R_X86_64_32
    case (AArch64, 257) => 8   // R_AARCH64_ABS64
    case (AArch64, 1027) => 8  // R_AARCH64_RELATIVE
    case (AArch64, 258) => 4   // R_AARCH64_ABS32
    case (I386, 1) => 4        // R_386_32
    case (Arm, 2) => 4         // R_ARM_ABS32
    case _ => 0
  }

  /** A kept relocation is as wide as the field it stands for. */
  lemma KeptWidth(machine: Machine, ty: nat)
    ensures Translate(machine, ty).Keep? <==> FieldWidth(machine, ty) != 0
    ensures Translate(machine, ty).Keep? ==> RelocSize(Translate(machine, ty).ty) == FieldWidth(machine, ty)
  {
  }

  predicate IsReloc(s: Section) { s.ty == SHT_REL || s.ty == SHT_RELA }

  /** ProcessRelocSection. */
  predicate Processed(c: Context, s: Section)
    requires s.info < |c.sections|
  {
    s.info == 0 || (!c.hasPieRelocs && c.sections[s.info].alloc)
  }

  /** Every relocation section targets a section of the table. */
  predicate Targets(secs: seq<Section>, n: nat)
    requires n <= |secs|
  {
    forall i :: 0 <= i < n && IsReloc(secs[i]) ==> secs[i].info < |secs|
  }

  /** PIE relocations target dummy section 0. */
  predicate HasPie(secs: seq<Section>, n: nat)
    requires n <= |secs|
  {
    exists i :: 0 <= i < n && IsReloc(secs[i]) && secs[i].info == 0
  }

  /** What ParseElfFile has established about the section table. */
  predicate Parsed(c: Context) {
    var n := |c.sections|;
    && Targets(c.sections, n) && (c.hasPieRelocs <==> HasPie(c.sections, n))
    && n > 0 && c.base == LeastAddress(c.sections, n)
    && LargestAlignment(c.sections, n) == Some(c.alignment)
    && IsPow2(c.alignment) && c.alignment <= MAX_PE_ALIGNMENT && c.base % c.alignment == 0
  }

  function LeastAddress(secs: seq<Section>, n: nat): (a: nat)
    requires 0 < n <= |secs|
    ensures (forall i :: 0 <= i < n ==> a <= secs[i].addr) && exists i :: 0 <= i < n && a == secs[i].addr
  {
    var last := secs[n - 1].addr;
    if n == 1 then last
    else
      var a := LeastAddress(secs, n - 1);
      if last < a then last else a
  }

  /** The largest alignment of a loadable section, if there is one. */
  function LargestAlignment(secs: seq<Section>, n: nat): (a: Option<nat>)
    requires n <= |secs|
    ensures a.None? <==> forall i :: 0 <= i < n ==> !secs[i].alloc
    ensures a.Some? ==>
              && (forall i :: 0 <= i < n && secs[i].alloc ==> secs[i].align <= a.value)
              && exists i :: 0 <= i < n && secs[i].alloc && secs[i].align == a.value
  {
    if n == 0 then None
    else
      var a, last := LargestAlignment(secs, n - 1), secs[n - 1];
      if last.alloc && (a.None? || a.value < last.align) then Some(last.align) else a
  }

  /**
   * A section table parses exactly if every relocation section targets a section, the least address is a multiple of the
   * largest alignment of a loadable section, and that alignment is a power of two and at most 64 KiB.
   */
  lemma ParsedIs(c: Context)
    ensures Parsed(c) <==>
              && c.sections != []
              && (forall i :: 0 <= i < |c.sections| && c.sections[i].ty in {4, 9} ==> c.sections[i].info < |c.sections|)
              && (c.hasPieRelocs <==> exists i :: 0 <= i < |c.sections| && c.sections[i].ty in {4, 9} && c.sections[i].info == 0)
              && (forall i :: 0 <= i < |c.sections| ==> c.base <= c.sections[i].addr)
              && (exists i :: 0 <= i < |c.sections| && c.sections[i].addr == c.base)
              && (forall i :: 0 <= i < |c.sections| && c.sections[i].alloc ==> c.sections[i].align <= c.alignment)
              && (exists i :: 0 <= i < |c.sections| && c.sections[i].alloc && c.sections[i].align == c.alignment)
              && IsPow2(c.alignment) && c.alignment <= 65536 && c.base % c.alignment == 0
  {
    hide IsPow2;
  }

  /** The section loop of ParseElfFile and the checks on what it found. */
  method ParseSections(machine: Machine, secs: seq<Section>) returns (c: Option<Context>)
    ensures c.Some? ==> c.value.machine == machine && c.value.sections == secs && Parsed(c.value)
    ensures c.None? ==>
              || !Targets(secs, |secs|) || LargestAlignment(secs, |secs|).None?
              || var a := LargestAlignment(secs, |secs|).value;
                 !IsPow2(a) || a > MAX_PE_ALIGNMENT || LeastAddress(secs, |secs|) % a != 0
  {
    hide IsPow2, LeastAddress, LargestAlignment, HasPie;
    var base, baseSet, alignment, alignmentSet, hasPie := 0, false, 0, false, false;
    var i := 0;
    ParseNothing(secs);
    while i < |secs|
      invariant 0 <= i <= |secs| && Targets(secs, i) && (hasPie <==> HasPie(secs, i))
      invariant baseSet == (i > 0) && (baseSet ==> base == LeastAddress(secs, i))
      invariant LargestAlignment(secs, i) == if alignmentSet then Some(alignment) else None
    {
      var s := secs[i];
      ParseStep(secs, i);
      if IsReloc(s) {
        if s.info >= |secs| {
          return None;
        }
        if s.info == 0 {
          hasPie := true;
        }
      }
      if !baseSet || s.addr < base {
        base, baseSet := s.addr, true;
      }
      if s.alloc && (!alignmentSet || alignment < s.align) {
        alignment, alignmentSet := s.align, true;
      }
      i := i + 1;
    }
    if !alignmentSet || !IsPow2(alignment) || alignment > MAX_PE_ALIGNMENT {
      return None;
    }
    PowerPositive(alignment);
    if !baseSet || base % alignment != 0 {
      return None;
    }
    c := Some(Context(machine, secs, alignment, base, hasPie));
  }

  lemma ParseNothing(secs: seq<Section>)
    ensures !HasPie(secs, 0) && LargestAlignment(secs, 0) == None
  {
  }

  lemma ParseStep(secs: seq<Section>, i: nat)
    requires i < |secs|
    ensures HasPie(secs, i + 1) <==> HasPie(secs, i) || (IsReloc(secs[i]) && secs[i].info == 0)
    ensures LeastAddress(secs, i + 1)
            == if i == 0 || secs[i].addr < LeastAddress(secs, i) then secs[i].addr else LeastAddress(secs, i)
    ensures LargestAlignment(secs, i + 1)
            == var a := LargestAlignment(secs, i);
               if secs[i].alloc && (a.None? || a.value < secs[i].align) then Some(secs[i].align) else a
  {
  }

  lemma PowerPositive(a: nat)
    requires IsPow2(a)
    ensures a > 0
  {
  }

  /** PIE relocations, if there are any, are the only ones that are translated. */
  lemma PieOnly(c: Context, i: nat)
    requires Parsed(c) && i < |c.sections| && IsReloc(c.sections[i])
    ensures var s := c.sections[i];
            Processed(c, s) <==> if c.hasPieRelocs then s.info == 0 else s.info != 0 && c.sections[s.info].alloc
  {
  }

  // ---------------------------------------------------------------- what the passes compute

  function Count(machine: Machine, rels: seq<Rel>): (n: nat) {
    if rels == [] then 0
    else Count(machine, rels[..|rels| - 1]) + if Counts(machine, rels[|rels| - 1].ty) then 1 else 0
  }

  /** The kept relocations, or None at a type the tool does not support; targets are truncated to 32 bits. */
  function Kept(machine: Machine, rels: seq<Rel>, base: nat): (r: Option<seq<Reloc>>) {
    if rels == [] then Some([])
    else
      var init, rel := Kept(machine, rels[..|rels| - 1], base), rels[|rels| - 1];
      var t := Translate(machine, rel.ty);
      if init.None? || t.Unsupported? then None
      else if t.Keep? then Some(init.value + [Reloc(t.ty, (rel.offset - base) % TWO_32)])
      else init
  }

  function HasGot(machine: Machine, rels: seq<Rel>): bool {
    exists i :: 0 <= i < |rels| && GotEntry(machine, rels[i].ty)
  }

  /** The entries of all relocation sections that are processed, in the order in which they are visited. */
  function Visited(c: Context, n: nat): (rels: seq<Rel>)
    requires Parsed(c) && n <= |c.sections|
  {
    if n == 0 then []
    else
      var s := c.sections[n - 1];
      Visited(c, n - 1) + if IsReloc(s) && Processed(c, s) then s.rels else []
  }

  /** Both passes over one list: never more kept than counted, and equally many exactly if no entry is a GOT entry. */
  lemma {:induction false} PassesAgree(machine: Machine, rels: seq<Rel>, base: nat)
    ensures Kept(machine, rels, base).Some? ==>
              && |Kept(machine, rels, base).value| <= Count(machine, rels)
              && (|Kept(machine, rels, base).value| == Count(machine, rels) <==> !HasGot(machine, rels))
    decreases |rels|
  {
    hide Translate, Counts, GotEntry;
    if rels != [] {
      var n := |rels| - 1;
      PassesAgree(machine, rels[..n], base);
      KeptIsCounted(machine, rels[n].ty);
      assert rels == rels[..n] + [rels[n]];
      assert HasGot(machine, rels) <==> HasGot(machine, rels[..n]) || GotEntry(machine, rels[n].ty) by {
        if HasGot(machine, rels) && !GotEntry(machine, rels[n].ty) {
          var i :| 0 <= i < |rels| && GotEntry(machine, rels[i].ty);
          assert GotEntry(machine, rels[..n][i].ty);
        }
      }
    }
  }

  /** The index of the k-th entry that stands for a relocated field. */
  function FieldAt(machine: Machine, rels: seq<Rel>, k: nat): (i: nat)
    requires k < Fields(machine, rels)
    ensures i < |rels| && FieldWidth(machine, rels[i].ty) != 0 && Fields(machine, rels[..i]) == k
    decreases |rels|
  {
    var n := |rels| - 1;
    if k < Fields(machine, rels[..n]) then
      var i := FieldAt(machine, rels[..n], k);
      assert rels[..n][..i] == rels[..i];
      i
    else n
  }

  function Fields(machine: Machine, rels: seq<Rel>): (n: nat)
    ensures n > 0 ==> rels != []
  {
    if rels == [] then 0
    else Fields(machine, rels[..|rels| - 1]) + if FieldWidth(machine, rels[|rels| - 1].ty) != 0 then 1 else 0
  }

  predicate AllKnown(machine: Machine, rels: seq<Rel>) { forall i :: 0 <= i < |rels| ==> Known(machine, rels[i].ty) }

  /** The k-th relocation is as wide as the k-th relocated field and at that field's distance from the base. */
  predicate StandFor(relocs: seq<Reloc>, machine: Machine, rels: seq<Rel>, base: nat) {
    && |relocs| == Fields(machine, rels)
    && forall k :: 0 <= k < |relocs| ==>
         var rel := rels[FieldAt(machine, rels, k)];
         RelocSize(relocs[k].ty) == FieldWidth(machine, rel.ty) && relocs[k].target == (rel.offset - base) % TWO_32
  }

  lemma StandForSkip(relocs: seq<Reloc>, machine: Machine, rels: seq<Rel>, base: nat)
    requires rels != [] && StandFor(relocs, machine, rels[..|rels| - 1], base)
    requires FieldWidth(machine, rels[|rels| - 1].ty) == 0
    ensures StandFor(relocs, machine, rels, base)
  {
    hide FieldWidth;
    var init := rels[..|rels| - 1];
    forall k | 0 <= k < |relocs| ensures FieldAt(machine, rels, k) == FieldAt(machine, init, k) {
    }
  }

  lemma StandForSnoc(relocs: seq<Reloc>, r: Reloc, machine: Machine, rels: seq<Rel>, base: nat)
    requires rels != [] && StandFor(relocs, machine, rels[..|rels| - 1], base)
    requires var rel := rels[|rels| - 1];
             RelocSize(r.ty) == FieldWidth(machine, rel.ty) != 0 && r.target == (rel.offset - base) % TWO_32
    ensures StandFor(relocs + [r], machine, rels, base)
  {
    hide FieldWidth;
    var init := rels[..|rels| - 1];
    forall k | 0 <= k < |relocs| ensures FieldAt(machine, rels, k) == FieldAt(machine, init, k) {
    }
  }

  lemma AllKnownSnoc(machine: Machine, rels: seq<Rel>)
    requires rels != []
    ensures AllKnown(machine, rels) <==> AllKnown(machine, rels[..|rels| - 1]) && Known(machine, rels[|rels| - 1].ty)
  {
    hide Known;
    var init := rels[..|rels| - 1];
    assert rels == init + [rels[|rels| - 1]];
  }

  /**
   * The result of the filling pass: one relocation for every entry that stands for an address, in order, as wide as that
   * address and at its distance from the base; a type that is not known at all makes it fail.
   */
  lemma {:induction false} KeptIs(machine: Machine, rels: seq<Rel>, base: nat)
    ensures Kept(machine, rels, base).Some? <==> AllKnown(machine, rels)
    ensures Kept(machine, rels, base).Some? ==> StandFor(Kept(machine, rels, base).value, machine, rels, base)
    decreases |rels|
  {
    if rels == [] {
      return;
    }
    hide Translate, FieldWidth, Known, StandFor, AllKnown;
    var init, rel := rels[..|rels| - 1], rels[|rels| - 1];
    KeptIs(machine, init, base);
    KeptWidth(machine, rel.ty);
    KnownTypes(machine, rel.ty);
    AllKnownSnoc(machine, rels);
    if Kept(machine, rels, base).Some? {
      var relocs := Kept(machine, init, base).value;
      if Translate(machine, rel.ty).Keep? {
        StandForSnoc(relocs, Reloc(Translate(machine, rel.ty).ty, (rel.offset - base) % TWO_32), machine, rels, base);
      } else {
        StandForSkip(relocs, machine, rels, base);
      }
    }
  }

  lemma {:induction false} CountAppend(machine: Machine, a: seq<Rel>, b: seq<Rel>)
    ensures Count(machine, a + b) == Count(machine, a) + Count(machine, b)
    decreases |b|
  {
    hide Counts;
    if b == [] {
      assert a + b == a;
    } else {
      assert (a + b)[..|a + b| - 1] == a + b[..|b| - 1];
      CountAppend(machine, a, b[..|b| - 1]);
    }
  }

  lemma {:induction false} KeptPrefix(machine: Machine, rels: seq<Rel>, base: nat, i: nat)
    requires i <= |rels|
    ensures Kept(machine, rels[..i], base).None? ==> Kept(machine, rels, base).None?
    ensures Kept(machine, rels, base).Some? ==> Kept(machine, rels[..i], base).value <= Kept(machine, rels, base).value
    decreases |rels|
  {
    hide Translate;
    if i == |rels| {
      assert rels[..i] == rels;
    } else {
      assert rels[..|rels| - 1][..i] == rels[..i];
      KeptPrefix(machine, rels[..|rels| - 1], base, i);
    }
  }

  // ---------------------------------------------------------------- the counting pass

  method CountSection(machine: Machine, rels: seq<Rel>, before: nat) returns (n: nat)
    ensures n == before + Count(machine, rels)
  {
    n := before;
    var i := 0;
    while i < |rels|
      invariant 0 <= i <= |rels| && n == before + Count(machine, rels[..i])
    {
      assert rels[..i + 1][..i] == rels[..i];
      if Counts(machine, rels[i].ty) {
        n := n + 1;
      }
      i := i + 1;
    }
    assert rels[..i] == rels;
  }

  function Allocated(secs: seq<Section>): (n: nat) {
    if secs == [] then 0 else Allocated(secs[..|secs| - 1]) + if secs[|secs| - 1].alloc then 1 else 0
  }

  predicate LoadableReloc(s: Section) { IsReloc(s) && s.alloc }

  /** The first loop of CreateIntermediate: how many segments and relocations to allocate. */
  method CountPass(c: Context) returns (ok: bool, numSegments: nat, numRelocs: nat)
    requires Parsed(c)
    ensures ok <==> forall i :: 0 <= i < |c.sections| && c.sections[i].ty in {4, 9} ==> !c.sections[i].alloc
    ensures ok ==> numSegments == Allocated(c.sections)
    ensures ok ==> numRelocs == Count(c.machine, Visited(c, |c.sections|))
  {
    hide Count, Counts, LeastAddress, LargestAlignment, HasPie;
    ok, numSegments, numRelocs := false, 0, 0;
    NothingCounted(c.machine);
    var i := 0;
    while i < |c.sections|
      invariant 0 <= i <= |c.sections|
      invariant forall k :: 0 <= k < i ==> !LoadableReloc(c.sections[k])
      invariant numSegments == Allocated(c.sections[..i])
      invariant numRelocs == Count(c.machine, Visited(c, i))
    {
      var s := c.sections[i];
      assert c.sections[..i + 1][..i] == c.sections[..i];
      assert Visited(c, i) + [] == Visited(c, i);
      if IsReloc(s) {
        if s.alloc {
          assert LoadableReloc(c.sections[i]);
          return;
        }
        if Processed(c, s) {
          CountAppend(c.machine, Visited(c, i), s.rels);
          numRelocs := CountSection(c.machine, s.rels, numRelocs);
        }
      }
      if s.alloc {
        numSegments := numSegments + 1;
      }
      i := i + 1;
    }
    assert c.sections[..i] == c.sections;
    ok := true;
  }

  lemma NothingCounted(machine: Machine)
    ensures Count(machine, []) == 0
  {
  }

  // ---------------------------------------------------------------- the filling pass

  lemma KeptSnoc(machine: Machine, rels: seq<Rel>, rel: Rel, base: nat)
    ensures Kept(machine, rels + [rel], base)
            == var init, t := Kept(machine, rels, base), Translate(machine, rel.ty);
               if init.None? || t.Unsupported? then None
               else if t.Keep? then Some(init.value + [Reloc(t.ty, (rel.offset - base) % TWO_32)])
               else init
    ensures Count(machine, rels + [rel]) == Count(machine, rels) + if Counts(machine, rel.ty) then 1 else 0
  {
    hide Translate, Counts;
    assert (rels + [rel])[..|rels|] == rels;
  }

  /** The inner loop of SetRelocs: the array allocated from the count has room for every store. */
  method FillSection(machine: Machine, rels: seq<Rel>, base: nat, relocs: array<Reloc>, before: nat, ghost done: seq<Rel>)
    returns (ok: bool, num: nat)
    requires Kept(machine, done, base).Some? && before <= relocs.Length && Count(machine, done + rels) <= relocs.Length
    requires relocs[..before] == Kept(machine, done, base).value
    modifies relocs
    ensures ok <==> Kept(machine, done + rels, base).Some?
    ensures ok ==> num <= relocs.Length && relocs[..num] == Kept(machine, done + rels, base).value
  {
    hide Kept, Count, Translate, Counts;
    num := before;
    var i := 0;
    assert done + rels[..0] == done;
    while i < |rels|
      invariant 0 <= i <= |rels| && num <= relocs.Length
      invariant Kept(machine, done + rels[..i], base).Some?
      invariant relocs[..num] == Kept(machine, done + rels[..i], base).value
    {
      ghost var seen := done + rels[..i];
      assert seen + [rels[i]] == done + rels[..i + 1];
      KeptSnoc(machine, seen, rels[i], base);
      KeptIsCounted(machine, rels[i].ty);
      RoomLeft(machine, seen, rels[i], base, done + rels, i + 1 + |done|);
      var t := Translate(machine, rels[i].ty);
      if t.Unsupported? {
        Kept0(machine, done + rels, base, |done| + i + 1, seen + [rels[i]]);
        return false, num;
      }
      if t.Keep? {
        ghost var stored := relocs[..num];
        relocs[num] := Reloc(t.ty, (rels[i].offset - base) % TWO_32);
        num := num + 1;
        assert relocs[..num] == stored + [relocs[num - 1]];
      }
      i := i + 1;
    }
    assert rels[..i] == rels;
    ok := true;
  }

  lemma Kept0(machine: Machine, rels: seq<Rel>, base: nat, i: nat, part: seq<Rel>)
    requires i <= |rels| && rels[..i] == part && Kept(machine, part, base).None?
    ensures Kept(machine, rels, base).None?
  {
    KeptPrefix(machine, rels, base, i);
  }

  lemma {:induction false} CountPrefix(machine: Machine, rels: seq<Rel>, i: nat)
    requires i <= |rels|
    ensures Count(machine, rels[..i]) <= Count(machine, rels)
  {
    hide Count;
    assert rels == rels[..i] + rels[i..];
    CountAppend(machine, rels[..i], rels[i..]);
  }

  /** A kept entry is counted, so its slot exists. */
  lemma RoomLeft(machine: Machine, seen: seq<Rel>, rel: Rel, base: nat, all: seq<Rel>, i: nat)
    requires Kept(machine, seen, base).Some? && i <= |all| && all[..i] == seen + [rel]
    ensures Translate(machine, rel.ty).Keep? ==> |Kept(machine, seen, base).value| + 1 <= Count(machine, all)
  {
    hide Kept, Count, Translate, Counts;
    PassesAgree(machine, seen, base);
    KeptIsCounted(machine, rel.ty);
    KeptSnoc(machine, seen, rel, base);
    CountPrefix(machine, all, i);
  }

  /** SetRelocs, on an array of the size the counting pass found; a count of zero stands for no array. */
  method SetRelocs(c: Context, relocs: array<Reloc>) returns (ok: bool, num: nat)
    requires Parsed(c) && relocs.Length == Count(c.machine, Visited(c, |c.sections|))
    modifies relocs
    ensures var r := Kept(c.machine, Visited(c, |c.sections|), c.base);
            && (ok <==> r.Some?)
            && (ok ==> num <= relocs.Length && relocs[..num] == r.value)
    ensures ok <==> AllKnown(c.machine, Visited(c, |c.sections|))
    ensures ok ==> num <= relocs.Length && StandFor(relocs[..num], c.machine, Visited(c, |c.sections|), c.base)
  {
    hide Kept, Count, Visited, AllKnown, StandFor;
    num := 0;
    var i := 0;
    NothingKept(c);
    KeptIs(c.machine, Visited(c, |c.sections|), c.base);
    while i < |c.sections|
      invariant 0 <= i <= |c.sections| && num <= relocs.Length
      invariant Kept(c.machine, Visited(c, i), c.base).Some?
      invariant relocs[..num] == Kept(c.machine, Visited(c, i), c.base).value
    {
      var s := c.sections[i];
      VisitedStep(c, i);
      VisitedPrefix(c, i + 1, |c.sections|);
      ghost var all := Visited(c, |c.sections|);
      assert all[..|Visited(c, i + 1)|] == Visited(c, i + 1);
      CountPrefix(c.machine, all, |Visited(c, i + 1)|);
      if IsReloc(s) && Processed(c, s) {
        ok, num := FillSection(c.machine, s.rels, c.base, relocs, num, Visited(c, i));
        if !ok {
          Kept0(c.machine, all, c.base, |Visited(c, i + 1)|, Visited(c, i + 1));
          return;
        }
      }
      i := i + 1;
    }
    ok := true;
  }

  /** Section i holds relocations, for the image as a whole if any do that, and else for a section that is loaded. */
  predicate Relevant(secs: seq<Section>, i: nat)
    requires i < |secs|
  {
    var s := secs[i];
    && (s.ty == 4 || s.ty == 9)
    && (s.info == 0 || ((forall k :: 0 <= k < |secs| && secs[k].ty in {4, 9} ==> secs[k].info != 0)
                        && s.info < |secs| && secs[s.info].alloc))
  }

  lemma RelevantIs(c: Context, i: nat)
    requires Parsed(c) && i < |c.sections|
    ensures var s := c.sections[i];
            && (IsReloc(s) ==> s.info < |c.sections|)
            && (Relevant(c.sections, i) <==> IsReloc(s) && Processed(c, s))
  {
    hide LeastAddress, LargestAlignment, IsPow2;
  }

  /** Both passes visit the entries of the relevant sections and no others. */
  lemma {:induction false} VisitedAre(c: Context, n: nat, rel: Rel)
    requires Parsed(c) && n <= |c.sections|
    ensures rel in Visited(c, n) <==> exists i :: 0 <= i < n && Relevant(c.sections, i) && rel in c.sections[i].rels
    decreases n
  {
    hide Parsed, Relevant, IsReloc, Processed, Visited;
    if n == 0 {
      NothingKept(c);
    } else {
      VisitedAre(c, n - 1, rel);
      VisitedStep(c, n - 1);
      RelevantIs(c, n - 1);
    }
  }

  lemma NothingKept(c: Context)
    requires Parsed(c)
    ensures Visited(c, 0) == [] && Kept(c.machine, [], c.base) == Some([])
  {
  }

  lemma VisitedStep(c: Context, i: nat)
    requires Parsed(c) && i < |c.sections|
    ensures var s := c.sections[i];
            Visited(c, i + 1) == if IsReloc(s) && Processed(c, s) then Visited(c, i) + s.rels else Visited(c, i)
  {
    assert Visited(c, i) + [] == Visited(c, i);
  }

  lemma {:induction false} VisitedPrefix(c: Context, i: nat, n: nat)
    requires Parsed(c) && i <= n <= |c.sections|
    ensures Visited(c, i) <= Visited(c, n)
    decreases n
  {
    if i < n {
      VisitedPrefix(c, i, n - 1);
    }
  }

  // ---------------------------------------------------------------- the segments

  datatype Filled = Filled(address: uint32, write: bool, execute: bool)

  predicate Supported(s: Section) { s.alloc ==> s.ty == SHT_PROGBITS || s.ty == SHT_NOBITS }

  /** The second loop of CreateIntermediate: it fills exactly the segments that were counted. */
  method FillSegments(c: Context, segments: array<Filled>) returns (ok: bool, count: nat)
    requires segments.Length == Allocated(c.sections)
    modifies segments
    ensures ok <==> forall i :: 0 <= i < |c.sections| && c.sections[i].alloc ==> c.sections[i].ty == 1 || c.sections[i].ty == 8
    ensures ok ==> count == segments.Length
    ensures ok ==> forall i :: 0 <= i < |c.sections| && c.sections[i].alloc ==>
                     var k, s := Allocated(c.sections[..i]), c.sections[i];
                     k < segments.Length && segments[k] == Filled((s.addr - c.base) % TWO_32, s.write, s.execute)
  {
    hide Allocated;
    count := 0;
    var i := 0;
    NothingAllocated(c.sections);
    while i < |c.sections|
      invariant 0 <= i <= |c.sections| && count == Allocated(c.sections[..i])
      invariant forall j :: 0 <= j < i ==> Supported(c.sections[j])
      invariant forall j :: 0 <= j < i && c.sections[j].alloc ==>
                  var k, s := Allocated(c.sections[..j]), c.sections[j];
                  k < count <= segments.Length && segments[k] == Filled((s.addr - c.base) % TWO_32, s.write, s.execute)
    {
      var s := c.sections[i];
      AllocatedStep(c.sections, i);
      if s.alloc {
        if s.ty != SHT_PROGBITS && s.ty != SHT_NOBITS {
          assert !Supported(c.sections[i]);
          return false, count;
        }
        segments[count] := Filled((s.addr - c.base) % TWO_32, s.write, s.execute);
        count := count + 1;
      }
      i := i + 1;
    }
    assert c.sections[..i] == c.sections;
    ok := true;
  }

  lemma NothingAllocated(secs: seq<Section>)
    ensures Allocated(secs[..0]) == 0
  {
  }

  lemma {:induction false} AllocatedPrefix(secs: seq<Section>, i: nat)
    requires i <= |secs|
    ensures Allocated(secs[..i]) <= Allocated(secs)
    decreases |secs|
  {
    if i == |secs| {
      assert secs[..i] == secs;
    } else {
      assert secs[..|secs| - 1][..i] == secs[..i];
      AllocatedPrefix(secs[..|secs| - 1], i);
    }
  }

  lemma AllocatedStep(secs: seq<Section>, i: nat)
    requires i < |secs|
    ensures Allocated(secs[..i + 1]) == Allocated(secs[..i]) + if secs[i].alloc then 1 else 0
    ensures Allocated(secs[..i + 1]) <= Allocated(secs)
  {
    assert secs[..i + 1][..i] == secs[..i];
    AllocatedPrefix(secs, i + 1);
  }
}
