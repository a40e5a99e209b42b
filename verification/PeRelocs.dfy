/** The base relocation table of PE files: blocks of one page each (PeEmit.c, PeScan.c). */
module PeRelocs {
  import opened Bytes
  import opened DynamicBuffer
  import opened Image
  import opened Pipeline

  const BLOCK_HEADER_SIZE := 8

  /** PAGE and PAGE_OFF. */
  function Page(target: nat): (p: nat) { target - target % 0x1000 }

  function Entry(r: Reloc): (e: nat) { r.target % 0x1000 + r.ty * 0x1000 }

  /** What the table can hold: the two relocation types the tool knows. */
  predicate Plain(relocs: seq<Reloc>) {
    forall i :: 0 <= i < |relocs| ==> relocs[i].ty == REL_HIGHLOW || relocs[i].ty == REL_DIR64
  }

  // ---------------------------------------------------------------- encoding

  /** The table while it is built: finished blocks, and the page and entries of the open one. */
  datatype Blocks = Blocks(closed: seq<byte>, page: nat, entries: seq<byte>)

  /** A finished block at offset `at`: page, size, entries, padding to an offset that is a multiple of four. */
  function Block(page: nat, entries: seq<byte>, at: nat := 0): (b: seq<byte>)
    ensures at + |b| == AlignUp(at + BLOCK_HEADER_SIZE + |entries|, 4) && (at + |b|) % 4 == 0
  {
    var pad := AlignAddend(at + BLOCK_HEADER_SIZE + |entries|, 4);
    ToLe(page, 4) + ToLe(BLOCK_HEADER_SIZE + |entries| + pad, 4) + entries + Zeros(pad)
  }

  /** The first n relocations in a table that starts at offset `start`. */
  function Fill(relocs: seq<Reloc>, n: nat, start: nat := 0): (b: Blocks)
    requires relocs != [] && n <= |relocs|
    ensures b.closed == [] || (start + |b.closed|) % 4 == 0
    ensures n > 0 ==> |b.entries| >= 2 && b.page == Page(relocs[n - 1].target)
    ensures n == 0 ==> b == Blocks([], Page(relocs[0].target), [])
  {
    if n == 0 then Blocks([], Page(relocs[0].target), [])
    else
      var b, r := Fill(relocs, n - 1, start), relocs[n - 1];
      if Page(r.target) == b.page then b.(entries := b.entries + ToLe(Entry(r), 2))
      else Blocks(Finish(b, start), Page(r.target), ToLe(Entry(r), 2))
  }

  /** The table with its open block finished; only the first block depends on where the table starts. */
  function Finish(b: Blocks, start: nat := 0): (t: seq<byte>)
    ensures b.closed < t
    ensures b.closed == [] || (start + |b.closed|) % 4 == 0 ==> (start + |t|) % 4 == 0
  {
    var last := Block(b.page, b.entries, if b.closed == [] then start else 0);
    FinishAligned(start + |b.closed|, |last|);
    b.closed + last
  }

  lemma FinishAligned(x: nat, y: nat)
    ensures x % 4 == 0 && y % 4 == 0 ==> (x + y) % 4 == 0
  {
  }

  /** The whole directory. */
  function PeTable(relocs: seq<Reloc>, start: nat := 0): (t: seq<byte>)
    requires relocs != []
    ensures (start + |t|) % 4 == 0
  {
    Finish(Fill(relocs, |relocs|, start), start)
  }

  /** A table costs at most twelve bytes per relocation, and at least two per relocation and eight for a block. */
  lemma {:induction false} FillSize(relocs: seq<Reloc>, n: nat)
    requires relocs != [] && n <= |relocs|
    ensures |Finish(Fill(relocs, n))| <= if n == 0 then BLOCK_HEADER_SIZE else 12 * n
    ensures |Fill(relocs, n).closed| + |Fill(relocs, n).entries| >= 2 * n
  {
    hide Block, Entry, ToLe;
    if n > 0 {
      FillSize(relocs, n - 1);
    }
  }

  lemma TableSizeBounds(relocs: seq<Reloc>)
    requires relocs != []
    ensures BLOCK_HEADER_SIZE + 2 * |relocs| <= |PeTable(relocs)| <= 12 * |relocs|
  {
    FillSize(relocs, |relocs|);
  }

  /** A table that starts at a multiple of four does not depend on where. */
  lemma {:induction false} FillAligned(relocs: seq<Reloc>, n: nat, start: nat)
    requires relocs != [] && n <= |relocs| && start % 4 == 0
    ensures Fill(relocs, n, start) == Fill(relocs, n)
    ensures Finish(Fill(relocs, n, start), start) == Finish(Fill(relocs, n))
  {
    hide Entry, ToLe, Page, Block;
    if n > 0 {
      FillAligned(relocs, n - 1, start);
    }
    var b := Fill(relocs, n);
    BlockAligned(b.page, b.entries, start);
  }

  lemma BlockAligned(page: nat, entries: seq<byte>, at: nat)
    requires at % 4 == 0
    ensures Block(page, entries, at) == Block(page, entries)
  {
    hide ToLe, AlignAddend;
    SameAlignment(at, BLOCK_HEADER_SIZE + |entries|, 4);
  }

  lemma TableAligned(relocs: seq<Reloc>, start: nat)
    requires relocs != [] && start % 4 == 0
    ensures PeTable(relocs, start) == PeTable(relocs)
  {
    hide Fill, Finish;
    FillAligned(relocs, |relocs|, start);
  }

  // ---------------------------------------------------------------- pages

  /** The pages of the blocks, in the order of the table. */
  function Pages(relocs: seq<Reloc>, n: nat): (p: seq<nat>)
    requires 0 < n <= |relocs|
    ensures p != [] && p[|p| - 1] == Page(relocs[n - 1].target)
  {
    if n == 1 then [Page(relocs[0].target)]
    else if Page(relocs[n - 1].target) == Page(relocs[n - 2].target) then Pages(relocs, n - 1)
    else Pages(relocs, n - 1) + [Page(relocs[n - 1].target)]
  }

  lemma PageMonotone(a: nat, b: nat)
    requires a <= b
    ensures Page(a) <= Page(b)
  {
  }

  predicate Ascending(p: seq<nat>) {
    forall i, j :: 0 <= i < j < |p| ==> p[i] < p[j]
  }

  /** Blocks describe pages of 4 KiB. */
  predicate WholePages(p: seq<nat>) {
    forall i :: 0 <= i < |p| ==> p[i] % 0x1000 == 0
  }

  lemma WholePage(target: nat)
    ensures Page(target) % 0x1000 == 0
  {
  }

  lemma AscendingSnoc(p: seq<nat>, x: nat)
    requires Ascending(p) && WholePages(p) && (p != [] ==> p[|p| - 1] < x) && x % 0x1000 == 0
    ensures Ascending(p + [x]) && WholePages(p + [x])
  {
  }

  /** On sorted relocations no page has two blocks, and the blocks ascend. */
  lemma {:induction false} PagesAscend(relocs: seq<Reloc>, n: nat)
    requires 0 < n <= |relocs| && ByTarget(relocs)
    ensures Ascending(Pages(relocs, n)) && WholePages(Pages(relocs, n))
  {
    hide Page, Ascending, WholePages;
    WholePage(relocs[n - 1].target);
    if n == 1 {
      OnePage(Page(relocs[0].target));
    }
    if n > 1 {
      PagesAscend(relocs, n - 1);
      PageMonotone(relocs[n - 2].target, relocs[n - 1].target);
      if Page(relocs[n - 1].target) != Page(relocs[n - 2].target) {
        AscendingSnoc(Pages(relocs, n - 1), Page(relocs[n - 1].target));
      }
    }
  }

  lemma OnePage(x: nat)
    requires x % 0x1000 == 0
    ensures Ascending([x]) && WholePages([x])
  {
  }

  // ---------------------------------------------------------------- decoding

  /** One entry: nothing for padding, None for a type the tool does not know. The target wraps as in the source. */
  function DecodeEntry(e: nat, page: nat): (r: Option<seq<Reloc>>)
    requires e < 0x1_0000
    ensures r.Some? ==> |r.value| <= 1
  {
    var ty, target := e / 0x1000, (page + e % 0x1000) % TWO_32;
    if ty == REL_ABSOLUTE then Some([])
    else if ty == REL_HIGHLOW || ty == REL_DIR64 then Some([Reloc(ty, target)])
    else None
  }

  /** The first n entries of a block. */
  function ScanEntries(m: seq<byte>, at: nat, n: nat, page: nat): (r: Option<seq<Reloc>>)
    requires at + 2 * n <= |m|
    ensures r.Some? ==> |r.value| <= n
  {
    if n == 0 then Some([])
    else
      Pow256Values();
      var init, last := ScanEntries(m, at, n - 1, page), DecodeEntry(Load(m, at + 2 * (n - 1), 2), page);
      if init.None? || last.None? then None else Some(init.value + last.value)
  }

  lemma AdvanceBounds(rva: nat, max: nat, size: nat)
    requires rva % 4 == 0 && BLOCK_HEADER_SIZE <= size && size - BLOCK_HEADER_SIZE <= max - rva
    ensures rva + AlignUp(size, 4) <= AlignUp(max + BLOCK_HEADER_SIZE, 4)
    ensures (rva + AlignUp(size, 4)) % 4 == 0
  {
    ModSum(rva, AlignUp(size, 4), 4);
    var x := max + BLOCK_HEADER_SIZE - rva;
    ModSum(rva, x, 4);
    AlignUpLeast(size, AlignUp(x, 4), 4);
    ModSum(rva, AlignUp(x, 4), 4);
  }

  /**
   * The walk over the blocks. Each block lies in the directory, the walk never passes its aligned end, and it stores
   * at most one relocation for every two bytes it advances.
   */
  function ScanBlocks(m: seq<byte>, rva: nat, max: nat, found: seq<Reloc>): (r: Option<(seq<Reloc>, nat)>)
    requires max + BLOCK_HEADER_SIZE <= |m| && rva % 4 == 0 && rva <= AlignUp(max + BLOCK_HEADER_SIZE, 4)
    ensures r.Some? ==>
              && max < r.value.1 <= AlignUp(max + BLOCK_HEADER_SIZE, 4)
              && found <= r.value.0
              && 2 * (|r.value.0| - |found|) <= r.value.1 - rva
              && (rva <= max ==> 2 * (|r.value.0| - |found|) + BLOCK_HEADER_SIZE <= r.value.1 - rva)
    decreases AlignUp(max + BLOCK_HEADER_SIZE, 4) - rva
  {
    if rva > max then Some((found, rva))
    else
      var size := Load(m, rva + 4, 4);
      if size < BLOCK_HEADER_SIZE || size - BLOCK_HEADER_SIZE > max - rva then None
      else
        AdvanceBounds(rva, max, size);
        var es := ScanEntries(m, rva + BLOCK_HEADER_SIZE, (size - BLOCK_HEADER_SIZE) / 2, Load(m, rva, 4));
        if es.None? then None else ScanBlocks(m, rva + AlignUp(size, 4), max, found + es.value)
  }

  /** What the loader guarantees about the directory: absent, or aligned, in the image and at least one header long. */
  predicate Directory(m: seq<byte>, rva: nat, size: nat) {
    size == 0 || (rva % 4 == 0 && BLOCK_HEADER_SIZE <= size && rva + size <= |m| < TWO_32)
  }

  /** ScanPeGetRelocInfo. */
  function ScanPe(m: seq<byte>, rva: nat, size: nat): (r: Option<seq<Reloc>>)
    requires Directory(m, rva, size)
    ensures r.Some? ==> |r.value| <= size / 2
  {
    var top := AlignUp(rva + size, 4);
    if size == 0 then Some([])
    else if size * 4 >= TWO_32 || top >= TWO_32 then None
    else
      var r := ScanBlocks(m, rva, rva + size - BLOCK_HEADER_SIZE, []);
      if r.None? || r.value.1 != top then None else Some(r.value.0)
  }

  // ---------------------------------------------------------------- round trip: one block

  /** The entries of a run of relocations on one page. */
  function Encode(rs: seq<Reloc>): (e: seq<byte>)
    ensures |e| == 2 * |rs|
  {
    if rs == [] then [] else Encode(rs[..|rs| - 1]) + ToLe(Entry(rs[|rs| - 1]), 2)
  }

  predicate OnPage(rs: seq<Reloc>, page: nat) {
    forall i :: 0 <= i < |rs| ==> Page(rs[i].target) == page
  }

  lemma EntryRoundTrip(r: Reloc)
    requires r.ty == REL_HIGHLOW || r.ty == REL_DIR64
    ensures Entry(r) < 0x1_0000 && DecodeEntry(Entry(r), Page(r.target)) == Some([r])
  {
    DivModUnique(Entry(r), 0x1000, r.ty, r.target % 0x1000);
    DivModUnique(r.target, TWO_32, 0, r.target);
  }

  ghost predicate Holding(m: seq<byte>, at: nat, part: seq<byte>) {
    at + |part| <= |m| && m[at..at + |part|] == part
  }

  lemma HoldingPart(m: seq<byte>, at: nat, a: seq<byte>, b: seq<byte>, c: seq<byte>)
    requires Holding(m, at, a + b + c)
    ensures Holding(m, at + |a|, b)
  {
    var t := a + b + c;
    assert t[|a|..|a| + |b|] == b;
    assert m[at..at + |t|][|a|..|a| + |b|] == m[at + |a|..at + |a| + |b|];
  }

  lemma {:induction false} EntriesRoundTrip(m: seq<byte>, at: nat, rs: seq<Reloc>, page: nat)
    requires Holding(m, at, Encode(rs)) && Plain(rs) && OnPage(rs, page)
    ensures ScanEntries(m, at, |rs|, page) == Some(rs)
    decreases |rs|
  {
    hide DecodeEntry, Entry, Page;
    if rs != [] {
      var k := |rs| - 1;
      var init, last := rs[..k], rs[k];
      EntryRoundTrip(last);
      EncodeParts(m, at, rs);
      EntriesRoundTrip(m, at, init, page);
      Pow256Values();
      FromToLe(Entry(last), 2);
      assert rs == init + [last];
    }
  }

  lemma {:induction false} EncodeParts(m: seq<byte>, at: nat, rs: seq<Reloc>)
    requires rs != [] && Holding(m, at, Encode(rs))
    ensures var k := |rs| - 1; Holding(m, at, Encode(rs[..k])) && Holding(m, at + 2 * k, ToLe(Entry(rs[k]), 2))
  {
    hide Entry, ToLe, Holding;
    var x, y := Encode(rs[..|rs| - 1]), ToLe(Entry(rs[|rs| - 1]), 2);
    assert Encode(rs) == [] + x + y == x + y + [];
    HoldingPart(m, at, [], x, y);
    HoldingPart(m, at, x, y, []);
  }

  /** Padding is read as an entry that stands for nothing. */
  lemma PaddingSkipped(m: seq<byte>, at: nat, n: nat, page: nat)
    requires Holding(m, at + 2 * n, Zeros(2))
    ensures ScanEntries(m, at, n + 1, page) == ScanEntries(m, at, n, page)
  {
    FromZeros();
    var r := ScanEntries(m, at, n, page);
    assert r.Some? ==> r.value + [] == r.value;
  }

  lemma FromZeros()
    ensures FromLe(Zeros(2)) == 0
  {
    assert Zeros(2) == [0, 0];
    assert [0, 0][1..] == [0] && [0][1..] == [];
  }

  lemma BlockParts(m: seq<byte>, at: nat, page: nat, e: seq<byte>)
    requires Holding(m, at, Block(page, e))
    ensures var pad := AlignAddend(BLOCK_HEADER_SIZE + |e|, 4);
            && Holding(m, at, ToLe(page, 4)) && Holding(m, at + 4, ToLe(BLOCK_HEADER_SIZE + |e| + pad, 4))
            && Holding(m, at + BLOCK_HEADER_SIZE, e) && Holding(m, at + BLOCK_HEADER_SIZE + |e|, Zeros(pad))
  {
    hide Holding, ToLe, AlignAddend, Zeros;
    var pad := AlignAddend(BLOCK_HEADER_SIZE + |e|, 4);
    var p, q, z := ToLe(page, 4), ToLe(BLOCK_HEADER_SIZE + |e| + pad, 4), Zeros(pad);
    assert Block(page, e) == [] + p + (q + e + z) == p + q + (e + z) == (p + q) + e + z == (p + q + e) + z + [];
    HoldingPart(m, at, [], p, q + e + z);
    HoldingPart(m, at, p, q, e + z);
    HoldingPart(m, at, p + q, e, z);
    HoldingPart(m, at, p + q + e, z, []);
  }

  /** Padding is nothing or one entry. */
  lemma PadFacts(n: nat)
    ensures var pad := AlignAddend(BLOCK_HEADER_SIZE + 2 * n, 4);
            && (pad == 0 || pad == 2)
            && (BLOCK_HEADER_SIZE + 2 * n + pad - BLOCK_HEADER_SIZE) / 2 == if pad == 0 then n else n + 1
  {
  }

  /** Decoding one finished block yields its relocations and its length. */
  lemma BlockRoundTrip(m: seq<byte>, at: nat, rs: seq<Reloc>, page: nat)
    requires Plain(rs) && OnPage(rs, page) && page < TWO_32
    requires Holding(m, at, Block(page, Encode(rs))) && |Block(page, Encode(rs))| < TWO_32
    ensures var size := |Block(page, Encode(rs))|;
            && Load(m, at, 4) == page && Load(m, at + 4, 4) == size && size % 4 == 0
            && ScanEntries(m, at + BLOCK_HEADER_SIZE, (size - BLOCK_HEADER_SIZE) / 2, page) == Some(rs)
  {
    hide ScanEntries, Encode, FromLe, ToLe, OnPage, Block, Plain, AlignAddend, Pow256;
    var e := Encode(rs);
    var pad := AlignAddend(BLOCK_HEADER_SIZE + |e|, 4);
    PadFacts(|rs|);
    BlockParts(m, at, page, e);
    Pow256Values();
    FromToLe(page, 4);
    FromToLe(BLOCK_HEADER_SIZE + |e| + pad, 4);
    EntriesRoundTrip(m, at + BLOCK_HEADER_SIZE, rs, page);
    if pad != 0 {
      PaddingSkipped(m, at + BLOCK_HEADER_SIZE, |rs|, page);
    }
  }

  // ---------------------------------------------------------------- round trip: the table

  /** The first relocation of the open block. */
  function Start(relocs: seq<Reloc>, n: nat): (k: nat)
    requires relocs != [] && n <= |relocs|
    ensures k <= n && (n > 0 ==> k < n)
  {
    if n == 0 then 0
    else if n > 1 && Page(relocs[n - 1].target) == Fill(relocs, n - 1).page then Start(relocs, n - 1)
    else n - 1
  }

  /** The open block holds exactly the relocations from Start on, which share its page. */
  lemma {:induction false} OpenBlock(relocs: seq<Reloc>, n: nat)
    requires relocs != [] && n <= |relocs|
    ensures var k := Start(relocs, n);
            && Fill(relocs, n).entries == Encode(relocs[k..n]) && OnPage(relocs[k..n], Fill(relocs, n).page)
            && Fill(relocs, n).page < TWO_32
  {
    hide Block, Entry, ToLe, Page, Encode, OnPage;
    if n == 0 {
      PageBound(relocs[0]);
      EncodeNothing(Page(relocs[0].target));
    } else {
      OpenBlock(relocs, n - 1);
      var k, r := Start(relocs, n), relocs[n - 1];
      assert relocs[k..n] == relocs[k..n - 1] + [r];
      EncodeNothing(Page(r.target));
      EncodeSnoc(relocs[k..n - 1], r, Page(r.target));
      PageBound(r);
    }
  }

  lemma EncodeNothing(page: nat)
    ensures Encode([]) == [] && OnPage([], page)
  {
  }

  lemma EncodeSnoc(rs: seq<Reloc>, r: Reloc, page: nat)
    ensures Encode(rs + [r]) == Encode(rs) + ToLe(Entry(r), 2)
    ensures OnPage(rs, page) && Page(r.target) == page ==> OnPage(rs + [r], page)
  {
    assert (rs + [r])[..|rs|] == rs;
  }

  lemma PageBound(r: Reloc)
    ensures Page(r.target) < TWO_32
  {
  }

  /** Finished blocks are never changed again. */
  lemma {:induction false} ClosedPrefix(relocs: seq<Reloc>, n: nat, m: nat)
    requires relocs != [] && n <= m <= |relocs|
    ensures Fill(relocs, n).closed <= Fill(relocs, m).closed
    decreases m
  {
    hide Block, Entry, ToLe, Page;
    if n < m {
      ClosedPrefix(relocs, n, m - 1);
    }
  }

  lemma BlockStep(m: seq<byte>, rva: nat, max: nat, found: seq<Reloc>, rs: seq<Reloc>, page: nat)
    requires Plain(rs) && OnPage(rs, page) && page < TWO_32 && |m| < TWO_32
    requires max + BLOCK_HEADER_SIZE <= |m| && rva % 4 == 0
    requires Holding(m, rva, Block(page, Encode(rs))) && rva + |Block(page, Encode(rs))| <= max + BLOCK_HEADER_SIZE
    ensures var next := rva + |Block(page, Encode(rs))|;
            && next % 4 == 0 && next <= AlignUp(max + BLOCK_HEADER_SIZE, 4)
            && ScanBlocks(m, rva, max, found) == ScanBlocks(m, next, max, found + rs)
  {
    hide ScanEntries, Encode, Block, Plain, OnPage, Load, AlignAddend;
    var size := |Block(page, Encode(rs))|;
    BlockRoundTrip(m, rva, rs, page);
    ModSum(rva, size, 4);
    AlignedAlready(size);
  }

  lemma AlignedAlready(size: nat)
    requires size % 4 == 0
    ensures AlignUp(size, 4) == size
  {
  }

  lemma PlainPart(relocs: seq<Reloc>, i: nat, j: nat)
    requires Plain(relocs) && i <= j <= |relocs|
    ensures Plain(relocs[i..j])
  {
  }

  lemma HoldingPrefix(m: seq<byte>, at: nat, a: seq<byte>, b: seq<byte>, t: seq<byte>)
    requires Holding(m, at, t) && a + b <= t
    ensures Holding(m, at + |a|, b)
  {
    assert t == a + b + t[|a| + |b|..];
    HoldingPart(m, at, a, b, t[|a| + |b|..]);
  }

  /** The directory of the table, in memory at an aligned address. */
  ghost predicate Mapped(m: seq<byte>, base: nat, relocs: seq<Reloc>) {
    relocs != [] && Plain(relocs) && base % 4 == 0 && |m| < TWO_32 && Holding(m, base, PeTable(relocs))
  }

  /** The largest address a block can start at. */
  ghost function Last(base: nat, relocs: seq<Reloc>): (max: nat)
    requires relocs != []
    ensures max + BLOCK_HEADER_SIZE == base + |PeTable(relocs)|
  {
    TableSizeBounds(relocs);
    base + |PeTable(relocs)| - BLOCK_HEADER_SIZE
  }

  ghost predicate WalkedTo(m: seq<byte>, base: nat, relocs: seq<Reloc>, at: nat, n: nat)
    requires relocs != [] && n <= |relocs|
  {
    var max := Last(base, relocs);
    && base % 4 == 0 && max + BLOCK_HEADER_SIZE <= |m| && at % 4 == 0 && at <= AlignUp(max + BLOCK_HEADER_SIZE, 4)
    && ScanBlocks(m, base, max, []) == ScanBlocks(m, at, max, relocs[..n])
  }

  /** One block further: the open block after n relocations, if the table holds it finished. */
  lemma OpenStep(m: seq<byte>, base: nat, relocs: seq<Reloc>, n: nat)
    requires Mapped(m, base, relocs) && 0 < n <= |relocs| && Finish(Fill(relocs, n)) <= PeTable(relocs)
    requires WalkedTo(m, base, relocs, base + |Fill(relocs, n).closed|, Start(relocs, n))
    ensures WalkedTo(m, base, relocs, base + |Finish(Fill(relocs, n))|, n)
  {
    hide ScanBlocks, Block, Holding, Plain, Encode, OnPage, Fill, PeTable, Start, AlignUp;
    var b, k := Fill(relocs, n), Start(relocs, n);
    var rs := relocs[k..n];
    OpenBlock(relocs, n);
    PlainPart(relocs, k, n);
    HoldingPrefix(m, base, b.closed, Block(b.page, b.entries), PeTable(relocs));
    BlockStep(m, base + |b.closed|, Last(base, relocs), relocs[..k], rs, b.page);
    assert relocs[..k] + rs == relocs[..n];
  }

  lemma FillStep(relocs: seq<Reloc>, n: nat)
    requires relocs != [] && 0 < n <= |relocs|
    ensures || (Fill(relocs, n).closed == Fill(relocs, n - 1).closed && Start(relocs, n) == Start(relocs, n - 1))
            || (n > 1 && Fill(relocs, n).closed == Finish(Fill(relocs, n - 1)) && Start(relocs, n) == n - 1)
  {
    hide Block, Entry, ToLe, Page;
  }

  /** The walk reaches the open block with exactly the relocations of the finished ones. */
  lemma {:induction false} ClosedDecodes(m: seq<byte>, base: nat, relocs: seq<Reloc>, n: nat)
    requires Mapped(m, base, relocs) && n <= |relocs|
    ensures WalkedTo(m, base, relocs, base + |Fill(relocs, n).closed|, Start(relocs, n))
    decreases n
  {
    hide Fill, PeTable, ScanBlocks, Plain, Holding, Finish, WalkedTo, Start;
    if n == 0 {
      WalkStarts(m, base, relocs);
    } else {
      ClosedDecodes(m, base, relocs, n - 1);
      FillStep(relocs, n);
      ClosedInTable(relocs, n);
      if n > 1 && Fill(relocs, n).closed == Finish(Fill(relocs, n - 1)) && Start(relocs, n) == n - 1 {
        OpenStep(m, base, relocs, n - 1);
      }
    }
  }

  lemma ClosedInTable(relocs: seq<Reloc>, n: nat)
    requires relocs != [] && n <= |relocs|
    ensures Fill(relocs, n).closed <= PeTable(relocs)
  {
    hide Fill, Block;
    ClosedPrefix(relocs, n, |relocs|);
  }

  lemma WalkStarts(m: seq<byte>, base: nat, relocs: seq<Reloc>)
    requires Mapped(m, base, relocs)
    ensures WalkedTo(m, base, relocs, base + |Fill(relocs, 0).closed|, Start(relocs, 0))
  {
    hide ScanBlocks, PeTable;
    assert relocs[..0] == [];
  }

  /**
   * Every non-empty list of the tool's relocations, sorted or not, decodes from its table to itself, in order, and the
   * walk ends exactly at the end of the directory; it fails only for a table whose decoded form overflows 32 bits.
   */
  lemma PeRoundTrip(m: seq<byte>, base: nat, relocs: seq<Reloc>)
    requires Mapped(m, base, relocs)
    ensures Directory(m, base, |PeTable(relocs)|)
    ensures ScanPe(m, base, |PeTable(relocs)|) == Some(relocs) <==> 4 * |PeTable(relocs)| < TWO_32
  {
    hide ScanBlocks, Fill, PeTable, Plain, Start;
    TableSizeBounds(relocs);
    ClosedDecodes(m, base, relocs, |relocs|);
    WholeTable(relocs);
    OpenStep(m, base, relocs, |relocs|);
    assert relocs[..|relocs|] == relocs;
    var size := |PeTable(relocs)|;
    ModSum(base, size, 4);
    AlignedAlready(base + size);
    WalkEnds(m, base + size, Last(base, relocs), relocs);
  }

  lemma WholeTable(relocs: seq<Reloc>)
    requires relocs != []
    ensures PeTable(relocs) == Finish(Fill(relocs, |relocs|))
  {
  }

  lemma WalkEnds(m: seq<byte>, rva: nat, max: nat, found: seq<Reloc>)
    requires max + BLOCK_HEADER_SIZE <= |m| && rva % 4 == 0 && max < rva <= AlignUp(max + BLOCK_HEADER_SIZE, 4)
    ensures ScanBlocks(m, rva, max, found) == Some((found, rva))
  {
  }

  // ---------------------------------------------------------------- a table that is not decoded

  /** Two bytes per relocation, and at most eleven more per page. */
  lemma {:induction false} FillPages(relocs: seq<Reloc>, n: nat)
    requires 0 < n <= |relocs|
    ensures |Fill(relocs, n).closed| + |Fill(relocs, n).entries| <= 11 * (|Pages(relocs, n)| - 1) + 2 * n
  {
    hide Entry, ToLe, Page, Block;
    if n > 1 {
      FillPages(relocs, n - 1);
    }
  }

  lemma {:induction false} FewPages(relocs: seq<Reloc>, n: nat)
    requires 0 < n <= |relocs| && ByTarget(relocs)
    ensures 0x1000 * (|Pages(relocs, n)| - 1) <= Page(relocs[n - 1].target)
  {
    hide Page;
    if n > 1 {
      FewPages(relocs, n - 1);
      PageGap(relocs[n - 2].target, relocs[n - 1].target);
    }
  }

  lemma PageGap(a: nat, b: nat)
    requires a <= b
    ensures Page(a) == Page(b) || Page(a) + 0x1000 <= Page(b)
  {
  }

  /** A relocation in every word of the first n. */
  function Dense(n: nat): (rs: seq<Reloc>)
    requires 4 * n <= TWO_32
    ensures |rs| == n && forall i :: 0 <= i < n ==> rs[i] == Reloc(REL_HIGHLOW, 4 * i)
  {
    seq(n, i requires 0 <= i < n => Reloc(REL_HIGHLOW, 4 * i))
  }

  const MANY := 0x2000_0000

  /** 2 GiB of zeros in which every word is relocated. */
  function DenseImage(): Image {
    Image(Header(0, 0, 0x8664, 10, false), 4, [Segment(0, Zeros(4 * MANY), true, false, false, None, 0)], false, Dense(MANY), [], None)
  }

  lemma DenseChecked()
    ensures Checked(DenseImage()) && Plain(Dense(MANY)) && ByTarget(Dense(MANY))
  {
    hide Dense;
    var img := DenseImage();
    var segs := img.segments;
    assert CheckedSegment(segs, 4, 0);
    forall i | 0 <= i < MANY ensures CheckedReloc(segs, img.relocs[i]) {
      assert InSegment(segs[0], 4 * i);
    }
  }

  /** A checked image whose relocation table, although it fits 32 bits, is not decoded. */
  lemma WideTableFails()
    ensures var relocs := DenseImage().relocs;
            && Checked(DenseImage()) && Mapped(PeTable(relocs), 0, relocs)
            && ScanPe(PeTable(relocs), 0, |PeTable(relocs)|) == None
  {
    hide Dense, Fill, Pages, Plain, ByTarget, Checked, ScanBlocks, AlignAddend;
    var relocs := Dense(MANY);
    DenseChecked();
    TableSizeBounds(relocs);
    FillPages(relocs, MANY);
    FewPages(relocs, MANY);
    WholeTable(relocs);
    PeRoundTrip(PeTable(relocs), 0, relocs);
  }

  // ---------------------------------------------------------------- the pages of the emitted blocks

  /** The page of every block, by the walk of the decoder. */
  function WalkPages(m: seq<byte>, rva: nat, max: nat, found: seq<nat>): (r: Option<seq<nat>>)
    requires max + BLOCK_HEADER_SIZE <= |m| && rva % 4 == 0 && rva <= AlignUp(max + BLOCK_HEADER_SIZE, 4)
    decreases AlignUp(max + BLOCK_HEADER_SIZE, 4) - rva
  {
    if rva > max then Some(found)
    else
      var size := Load(m, rva + 4, 4);
      if size < BLOCK_HEADER_SIZE || size - BLOCK_HEADER_SIZE > max - rva then None
      else
        AdvanceBounds(rva, max, size);
        WalkPages(m, rva + AlignUp(size, 4), max, found + [Load(m, rva, 4)])
  }

  /** The pages of the blocks that are finished after n relocations. */
  function ClosedPages(relocs: seq<Reloc>, n: nat): (p: seq<nat>)
    requires relocs != [] && n <= |relocs|
  {
    if n == 0 then [] else Pages(relocs, n)[..|Pages(relocs, n)| - 1]
  }

  ghost predicate PagedTo(m: seq<byte>, base: nat, relocs: seq<Reloc>, at: nat, pages: seq<nat>)
    requires relocs != []
  {
    var max := Last(base, relocs);
    && base % 4 == 0 && max + BLOCK_HEADER_SIZE <= |m| && at % 4 == 0 && at <= AlignUp(max + BLOCK_HEADER_SIZE, 4)
    && WalkPages(m, base, max, []) == WalkPages(m, at, max, pages)
  }

  lemma PageStep(m: seq<byte>, base: nat, relocs: seq<Reloc>, n: nat)
    requires Mapped(m, base, relocs) && 0 < n <= |relocs| && Finish(Fill(relocs, n)) <= PeTable(relocs)
    requires PagedTo(m, base, relocs, base + |Fill(relocs, n).closed|, ClosedPages(relocs, n))
    ensures PagedTo(m, base, relocs, base + |Finish(Fill(relocs, n))|, Pages(relocs, n))
  {
    hide WalkPages, Block, Holding, Plain, Encode, OnPage, PeTable, Start, AlignUp, Pages, Load, ScanEntries;
    var b, k, p := Fill(relocs, n), Start(relocs, n), Pages(relocs, n);
    OpenBlock(relocs, n);
    PlainPart(relocs, k, n);
    HoldingPrefix(m, base, b.closed, Block(b.page, b.entries), PeTable(relocs));
    var at, max := base + |b.closed|, Last(base, relocs);
    BlockRoundTrip(m, at, relocs[k..n], b.page);
    assert p == p[..|p| - 1] + [b.page];
    PageOver(m, at, max, p[..|p| - 1]);
  }

  lemma PageOver(m: seq<byte>, rva: nat, max: nat, found: seq<nat>)
    requires max + BLOCK_HEADER_SIZE <= |m| && rva % 4 == 0 && rva <= max && Load(m, rva + 4, 4) % 4 == 0
    requires BLOCK_HEADER_SIZE <= Load(m, rva + 4, 4) <= max + BLOCK_HEADER_SIZE - rva
    ensures var next := rva + Load(m, rva + 4, 4);
            && next % 4 == 0 && next <= AlignUp(max + BLOCK_HEADER_SIZE, 4)
            && WalkPages(m, rva, max, found) == WalkPages(m, next, max, found + [Load(m, rva, 4)])
  {
    hide Load;
    AdvanceBounds(rva, max, Load(m, rva + 4, 4));
    AlignedAlready(Load(m, rva + 4, 4));
  }

  lemma PagesStep(relocs: seq<Reloc>, n: nat)
    requires relocs != [] && 0 < n <= |relocs|
    ensures || (Fill(relocs, n).closed == Fill(relocs, n - 1).closed && ClosedPages(relocs, n) == ClosedPages(relocs, n - 1))
            || (n > 1 && Fill(relocs, n).closed == Finish(Fill(relocs, n - 1)) && ClosedPages(relocs, n) == Pages(relocs, n - 1))
  {
    hide Block, Entry, ToLe, Page;
  }

  lemma {:induction false} ClosedPaged(m: seq<byte>, base: nat, relocs: seq<Reloc>, n: nat)
    requires Mapped(m, base, relocs) && n <= |relocs|
    ensures PagedTo(m, base, relocs, base + |Fill(relocs, n).closed|, ClosedPages(relocs, n))
    decreases n
  {
    hide Fill, PeTable, WalkPages, Plain, Holding, Finish, PagedTo, Pages, ClosedPages;
    if n == 0 {
      PagesStart(m, base, relocs);
    } else {
      ClosedPaged(m, base, relocs, n - 1);
      PagesStep(relocs, n);
      ClosedInTable(relocs, n);
      if n > 1 && Fill(relocs, n).closed == Finish(Fill(relocs, n - 1)) && ClosedPages(relocs, n) == Pages(relocs, n - 1) {
        PageStep(m, base, relocs, n - 1);
      }
    }
  }

  lemma PagesStart(m: seq<byte>, base: nat, relocs: seq<Reloc>)
    requires Mapped(m, base, relocs)
    ensures PagedTo(m, base, relocs, base + |Fill(relocs, 0).closed|, ClosedPages(relocs, 0))
  {
    hide WalkPages, PeTable;
  }

  /** The blocks of a table of sorted relocations are on strictly increasing pages. */
  lemma BlocksAscend(m: seq<byte>, base: nat, relocs: seq<Reloc>)
    requires Mapped(m, base, relocs) && ByTarget(relocs)
    ensures var max := Last(base, relocs);
            && max + BLOCK_HEADER_SIZE <= |m| && base <= AlignUp(max + BLOCK_HEADER_SIZE, 4)
            && WalkPages(m, base, max, []) == Some(Pages(relocs, |relocs|))
            && Ascending(Pages(relocs, |relocs|)) && WholePages(Pages(relocs, |relocs|))
  {
    hide WalkPages, Fill, PeTable, Plain, Pages, Ascending, WholePages, ByTarget, AlignAddend, Holding;
    ClosedPaged(m, base, relocs, |relocs|);
    WholeTable(relocs);
    PageStep(m, base, relocs, |relocs|);
    PagesEnd(m, base + |PeTable(relocs)|, Last(base, relocs), Pages(relocs, |relocs|));
    PagesAscend(relocs, |relocs|);
  }

  lemma PagesEnd(m: seq<byte>, rva: nat, max: nat, found: seq<nat>)
    requires max + BLOCK_HEADER_SIZE <= |m| && rva % 4 == 0 && max < rva <= AlignUp(max + BLOCK_HEADER_SIZE, 4)
    ensures WalkPages(m, rva, max, found) == Some(found)
  {
  }

  // ---------------------------------------------------------------- the emitter

  lemma HeaderPatch(p: seq<byte>, page: nat, entries: seq<byte>, at: nat, pad: nat)
    requires pad == AlignAddend(at + BLOCK_HEADER_SIZE + |entries|, 4)
    ensures Splice(p + Zeros(BLOCK_HEADER_SIZE) + entries + Zeros(pad), |p|,
                   ToLe(page, 4) + ToLe(BLOCK_HEADER_SIZE + |entries| + pad, 4))
            == p + Block(page, entries, at)
  {
    hide ToLe, AlignAddend;
    var h := ToLe(page, 4) + ToLe(BLOCK_HEADER_SIZE + |entries| + pad, 4);
    assert p + Block(page, entries, at) == p + h + entries + Zeros(pad);
    SpliceIndex(p + Zeros(BLOCK_HEADER_SIZE) + entries + Zeros(pad), |p|, h);
  }

  /** Pad the open block to a multiple of four and write its header into the space reserved for it. */
  method CloseBlock(b: Buffer, blockOffset: nat, page: nat, ghost p: seq<byte>, ghost entries: seq<byte>, ghost at: nat)
    returns (ok: bool)
    requires b.Valid() && b.Contents() == p + Zeros(BLOCK_HEADER_SIZE) + entries && blockOffset == |p|
    requires at == |p| || (at == 0 && |p| % 4 == 0)
    modifies b, b.memory
    ensures b.Valid() && (b.memory == old(b.memory) || fresh(b.memory))
    ensures if ok then b.Contents() == p + Block(page, entries, at) else Oversized(|p| + |Block(page, entries, at)|)
  {
    hide AlignAddend, ToLe, Block, Splice, Zeros;
    ghost var pad := AlignAddend(at + BLOCK_HEADER_SIZE + |entries|, 4);
    if at == 0 {
      SameAlignment(|p|, BLOCK_HEADER_SIZE + |entries|, 4);
    }
    var padding := b.AppendReserveAlign(4);
    if padding == MAX_UINT32 {
      return false;
    }
    HeaderPatch(p, page, entries, at, pad);
    b.Write(blockOffset, ToLe(page, 4) + ToLe(b.dataSize - blockOffset, 4));
    ok := true;
  }

  /** What the loop of the emitter keeps: finished blocks, space for a header, the entries of the open block. */
  ghost predicate Building(c: seq<byte>, p: seq<byte>, b: Blocks) {
    c == p + b.closed + Zeros(BLOCK_HEADER_SIZE) + b.entries
  }

  lemma {:induction false} FinishGrows(relocs: seq<Reloc>, n: nat, m: nat, start: nat)
    requires relocs != [] && n <= m <= |relocs|
    ensures |Finish(Fill(relocs, n, start), start)| <= |Finish(Fill(relocs, m, start), start)|
    decreases m
  {
    hide Fill, Finish;
    if n < m {
      FinishGrows(relocs, n, m - 1, start);
      FillExtends(relocs, m, start);
      if Fill(relocs, m, start).closed == Fill(relocs, m - 1, start).closed {
        FinishLonger(Fill(relocs, m - 1, start), Fill(relocs, m, start), start);
      }
    }
  }

  /** One more relocation goes to the open block, or finishes it. */
  lemma FillExtends(relocs: seq<Reloc>, n: nat, start: nat)
    requires relocs != [] && 0 < n <= |relocs|
    ensures var a, b := Fill(relocs, n - 1, start), Fill(relocs, n, start);
            || (a.closed == b.closed && |b.entries| == |a.entries| + 2)
            || b.closed == Finish(a, start)
  {
    hide Entry, ToLe, Page, Block;
  }

  lemma FinishLonger(a: Blocks, b: Blocks, start: nat)
    requires a.closed == b.closed && |b.entries| == |a.entries| + 2
    ensures |Finish(a, start)| <= |Finish(b, start)|
  {
    hide Block;
    var at := if a.closed == [] then start else 0;
    AlignMonotone(at + BLOCK_HEADER_SIZE + |a.entries|, at + BLOCK_HEADER_SIZE + |b.entries|);
  }

  lemma AlignMonotone(x: nat, y: nat)
    requires x <= y
    ensures AlignUp(x, 4) <= AlignUp(y, 4)
  {
    AlignUpLeast(x, AlignUp(y, 4), 4);
  }

  /** The open block is closed to what Finish says. */
  method FinishBlock(b: Buffer, blockOffset: nat, page: nat, ghost p: seq<byte>, ghost k: Blocks) returns (ok: bool)
    requires b.Valid() && Building(b.Contents(), p, k) && (k.closed == [] || (|p| + |k.closed|) % 4 == 0)
    requires blockOffset == |p| + |k.closed| && page == k.page
    modifies b, b.memory
    ensures b.Valid() && (b.memory == old(b.memory) || fresh(b.memory))
    ensures if ok then b.Contents() == p + Finish(k, |p|) else Oversized(|p| + |Finish(k, |p|)|)
  {
    hide Block, Zeros;
    ghost var at := if k.closed == [] then |p| else 0;
    ok := CloseBlock(b, blockOffset, page, p + k.closed, k.entries, at);
    assert p + k.closed + Block(k.page, k.entries, at) == p + Finish(k, |p|);
  }

  /** Close the block of the previous page and reserve the header of the next one. */
  method NextBlock(b: Buffer, blockOffset: nat, page: nat, ghost p: seq<byte>, ghost k: Blocks)
    returns (ok: bool, newOffset: nat)
    requires b.Valid() && Building(b.Contents(), p, k) && (k.closed == [] || (|p| + |k.closed|) % 4 == 0)
    requires blockOffset == |p| + |k.closed| && page == k.page
    modifies b, b.memory
    ensures b.Valid() && (b.memory == old(b.memory) || fresh(b.memory))
    ensures if ok then b.Contents() == p + Finish(k, |p|) + Zeros(BLOCK_HEADER_SIZE) && newOffset == |p| + |Finish(k, |p|)|
            else Oversized(|p| + |Finish(k, |p|)| + BLOCK_HEADER_SIZE)
  {
    hide Block, Zeros, Finish;
    newOffset := 0;
    ok := FinishBlock(b, blockOffset, page, p, k);
    if !ok {
      return;
    }
    newOffset := b.AppendReserve(BLOCK_HEADER_SIZE);
    ok := newOffset != MAX_UINT32;
  }

  /** One relocation: a new block if the page changes, then the entry. */
  method EmitEntry(b: Buffer, relocs: seq<Reloc>, i: nat, blockOffset: nat, page: nat, ghost p: seq<byte>)
    returns (ok: bool, newOffset: nat, newPage: nat)
    requires b.Valid() && i < |relocs| && Building(b.Contents(), p, Fill(relocs, i, |p|))
    requires blockOffset == |p| + |Fill(relocs, i, |p|).closed| && page == Fill(relocs, i, |p|).page
    modifies b, b.memory
    ensures b.Valid() && (b.memory == old(b.memory) || fresh(b.memory))
    ensures ok ==>
              && Building(b.Contents(), p, Fill(relocs, i + 1, |p|))
              && newOffset == |p| + |Fill(relocs, i + 1, |p|).closed| && newPage == Fill(relocs, i + 1, |p|).page
    ensures !ok ==> Oversized(|p| + |Finish(Fill(relocs, i + 1, |p|), |p|)|)
  {
    hide Block, Zeros, Entry, ToLe, AlignAddend, Page;
    ok, newOffset, newPage := true, blockOffset, page;
    var address := Page(relocs[i].target);
    if address != page {
      ok, newOffset := NextBlock(b, blockOffset, page, p, Fill(relocs, i, |p|));
      if !ok {
        return;
      }
      newPage := address;
    }
    var at := b.Append(ToLe(Entry(relocs[i]), 2));
    ok := at != MAX_UINT32;
  }

  /** ToolImageEmitPeRelocTable up to the section header, wherever the table starts. */
  method EmitPeRelocTable(b: Buffer, relocs: seq<Reloc>) returns (ok: bool)
    requires b.Valid() && relocs != []
    modifies b, b.memory
    ensures b.Valid() && (b.memory == old(b.memory) || fresh(b.memory))
    ensures var start := |old(b.Contents())|;
            if ok then b.Contents() == old(b.Contents()) + PeTable(relocs, start)
            else Oversized(start + |PeTable(relocs, start)|)
  {
    hide Fill, Block, Zeros, Page, Finish;
    ghost var p := b.Contents();
    FillNothing(relocs, p);
    FinishGrows(relocs, 0, |relocs|, |p|);
    var blockOffset := b.AppendReserve(BLOCK_HEADER_SIZE);
    if blockOffset == MAX_UINT32 {
      return false;
    }
    var page := Page(relocs[0].target);
    var i := 0;
    while i < |relocs|
      invariant 0 <= i <= |relocs| && b.Valid() && (b.memory == old(b.memory) || fresh(b.memory))
      invariant Building(b.Contents(), p, Fill(relocs, i, |p|))
      invariant blockOffset == |p| + |Fill(relocs, i, |p|).closed| && page == Fill(relocs, i, |p|).page
    {
      FinishGrows(relocs, i + 1, |relocs|, |p|);
      ok, blockOffset, page := EmitEntry(b, relocs, i, blockOffset, page, p);
      if !ok {
        return;
      }
      i := i + 1;
    }
    ok := FinishBlock(b, blockOffset, page, p, Fill(relocs, |relocs|, |p|));
  }

  lemma FillNothing(relocs: seq<Reloc>, p: seq<byte>)
    requires relocs != []
    ensures Building(p + Zeros(BLOCK_HEADER_SIZE), p, Fill(relocs, 0, |p|))
    ensures |Finish(Fill(relocs, 0, |p|), |p|)| >= BLOCK_HEADER_SIZE
    ensures Fill(relocs, 0, |p|) == Blocks([], Page(relocs[0].target), [])
  {
    assert p + [] + Zeros(BLOCK_HEADER_SIZE) + [] == p + Zeros(BLOCK_HEADER_SIZE);
  }

  // ---------------------------------------------------------------- the decoder

  lemma {:induction false} EntriesFail(m: seq<byte>, at: nat, i: nat, n: nat, page: nat)
    requires at + 2 * n <= |m| && i <= n && ScanEntries(m, at, i, page).None?
    ensures ScanEntries(m, at, n, page).None?
    decreases n
  {
    if i < n {
      EntriesFail(m, at, i, n - 1, page);
    }
  }

  lemma NoEntries(m: seq<byte>, at: nat, page: nat)
    requires at <= |m|
    ensures ScanEntries(m, at, 0, page) == Some([])
  {
  }

  lemma ScanEntriesStep(m: seq<byte>, at: nat, i: nat, page: nat)
    requires at + 2 * i + 2 <= |m|
    ensures Load(m, at + 2 * i, 2) < 0x1_0000
    ensures ScanEntries(m, at, i + 1, page)
            == var init, last := ScanEntries(m, at, i, page), DecodeEntry(Load(m, at + 2 * i, 2), page);
               if init.None? || last.None? then None else Some(init.value + last.value)
  {
    hide DecodeEntry, Load;
    Pow256Values();
  }

  /** The entries of one block, stored from `count` on; the array has room for them. */
  method ReadEntries(m: seq<byte>, at: nat, n: nat, page: nat, relocs: array<Reloc>, count: nat)
    returns (ok: bool, newCount: nat)
    requires at + 2 * n <= |m| && count + n <= relocs.Length
    modifies relocs
    ensures var r := ScanEntries(m, at, n, page);
            && (ok <==> r.Some?)
            && (ok ==> newCount <= count + n && relocs[..newCount] == old(relocs[..count]) + r.value)
  {
    hide DecodeEntry, ScanEntries, Load;
    newCount := count;
    var i := 0;
    NoEntries(m, at, page);
    while i < n
      invariant 0 <= i <= n && newCount <= count + i
      invariant ScanEntries(m, at, i, page).Some?
      invariant relocs[..newCount] == old(relocs[..count]) + ScanEntries(m, at, i, page).value
    {
      ScanEntriesStep(m, at, i, page);
      var d := DecodeEntry(Load(m, at + 2 * i, 2), page);
      if d.None? {
        EntriesFail(m, at, i + 1, n, page);
        return false, newCount;
      }
      ghost var before := relocs[..newCount];
      if |d.value| == 1 {
        relocs[newCount] := d.value[0];
        newCount := newCount + 1;
      }
      assert relocs[..newCount] == before + d.value;
      i := i + 1;
    }
    ok := true;
  }

  /** ScanPeGetRelocInfo: no store leaves the array allocated from the size of the directory. */
  method GetRelocInfo(m: seq<byte>, rva: nat, size: nat) returns (found: Option<seq<Reloc>>)
    requires Directory(m, rva, size)
    ensures found == ScanPe(m, rva, size)
  {
    hide ScanBlocks, ScanEntries, Load;
    if size == 0 {
      return Some([]);
    }
    if size * 4 >= TWO_32 {
      return None;
    }
    var relocs := new Reloc[size / 2](_ => Reloc(0, 0));
    var max, top := rva + size - BLOCK_HEADER_SIZE, AlignUp(rva + size, 4);
    if top >= TWO_32 {
      return None;
    }
    var at: nat, count: nat := rva, 0;
    ghost var all := ScanBlocks(m, rva, max, []);
    assert relocs[..0] == [];
    while at <= max
      invariant at % 4 == 0 && rva <= at <= top && count <= relocs.Length
      invariant 2 * count <= at - rva && (count > 0 ==> 2 * count + BLOCK_HEADER_SIZE <= at - rva)
      invariant ScanBlocks(m, at, max, relocs[..count]) == all
      decreases top - at
    {
      ScanBlocksStep(m, at, max, relocs[..count]);
      var blockSize := Load(m, at + 4, 4);
      if blockSize < BLOCK_HEADER_SIZE || blockSize - BLOCK_HEADER_SIZE > max - at {
        return None;
      }
      var ok;
      ok, count := ReadEntries(m, at + BLOCK_HEADER_SIZE, (blockSize - BLOCK_HEADER_SIZE) / 2, Load(m, at, 4), relocs, count);
      if !ok {
        return None;
      }
      at := at + AlignUp(blockSize, 4);
    }
    WalkEnds(m, at, max, relocs[..count]);
    found := if at == top then Some(relocs[..count]) else None;
  }

  lemma ScanBlocksStep(m: seq<byte>, rva: nat, max: nat, found: seq<Reloc>)
    requires max + BLOCK_HEADER_SIZE <= |m| && rva % 4 == 0 && rva <= max
    ensures var size := Load(m, rva + 4, 4);
            if size < BLOCK_HEADER_SIZE || size - BLOCK_HEADER_SIZE > max - rva then ScanBlocks(m, rva, max, found) == None
            else
              && (rva + AlignUp(size, 4)) % 4 == 0 && rva + AlignUp(size, 4) <= AlignUp(max + BLOCK_HEADER_SIZE, 4)
              && var es := ScanEntries(m, rva + BLOCK_HEADER_SIZE, (size - BLOCK_HEADER_SIZE) / 2, Load(m, rva, 4));
                 ScanBlocks(m, rva, max, found)
                 == if es.None? then None else ScanBlocks(m, rva + AlignUp(size, 4), max, found + es.value)
  {
    hide ScanEntries, Load;
    var size := Load(m, rva + 4, 4);
    if size >= BLOCK_HEADER_SIZE && size - BLOCK_HEADER_SIZE <= max - rva {
      AdvanceBounds(rva, max, size);
    }
  }
}
