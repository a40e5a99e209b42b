/** What scanning guarantees for every UE file, also one no emitter produced (UeScan.c, UefiImageScan.c, Image.c). */
module UeAnyFile {
  import opened Bytes
  import opened Image
  import opened ImageRules
  import opened Truncation
  import opened UeFixups
  import opened UeScan
  import opened UeScanSound
  import opened UeFormat
  import opened UeFile
  import opened UeLoad
  import opened UeEndToEnd
  import opened UeValidate
  import opened UeScanner

  lemma NamedChecked(segs: seq<Segment>, fields: seq<byte>, alignment: nat)
    requires CheckedSegments(segs, alignment) && |fields| == 8 * |segs|
    ensures var t := WithNames(segs, fields);
            CheckedSegments(t, alignment) && ImageSize(t) == ImageSize(segs) && t[0].address == segs[0].address
  {
    hide WithNames;
    var t := WithNames(segs, fields);
    forall i | 0 <= i < |t| ensures CheckedSegment(t, alignment, i) {
      assert CheckedSegment(segs, alignment, i);
    }
  }

  lemma LoadedChecked(file: seq<byte>, c: Context)
    requires ParseContext(file) == Some(c) && LoadSegments(file, c).Some?
    ensures var segs := LoadSegments(file, c).value;
            && CheckedSegments(segs, c.alignment) && ImageSize(segs) == c.imageSize && segs[0].address == 0
            && Loadable(segs)
  {
    hide ParseContext, WithNames, LoadEntries, FindDebug, VerifyEntries, VerifyTables, StoredSize, Tiled;
    var loaded := LoadEntries(c.entries, file[c.bodyAt..], c.alignment, 0);
    LoadTiled(c.entries, file[c.bodyAt..], c.alignment, 0);
    FirstAtZero(loaded, c.alignment);
    TiledChecked(loaded, c.alignment);
    CheckedLoadable(loaded, c.alignment);
    var d := FindDebug(c.tables, c.loadAt);
    if d.Some? {
      FindDebugBounds(c.tables, -1, c.loadAt);
      var names := d.value.0 + file[d.value.0 + 1] + 3;
      NamedChecked(loaded, file[names..names + 8 * |loaded|], c.alignment);
    }
  }

  lemma FirstAtZero(segs: seq<Segment>, alignment: nat)
    requires segs != [] && Tiled(segs, alignment, 0)
    ensures segs[0].address == 0
  {
  }

  /** Disjoint words of at least four bytes inside an image of less than 4 GiB are few. */
  /** The header as the parser leaves it. */
  lemma ParsedHeader(file: seq<byte>)
    requires ParseContext(file).Some?
    ensures var c := ParseContext(file).value;
            && IsPow2(c.alignment) && Aligned(c.header.baseAddress, c.alignment) && c.header.entryPoint <= c.imageSize
  {
    hide Load, ReadEntries, ReadInfos, VerifyEntries, VerifyTables, StoredSize, Pow2, AlignUp;
  }

  lemma PathBound(file: seq<byte>, c: Context)
    requires ParseContext(file) == Some(c) && LoadSymbolsPath(file, c).Some?
    ensures var p := LoadSymbolsPath(file, c).value; p.Some? ==> |p.value| <= 0xFF
  {
    hide ParseContext, FindDebug, VerifyEntries, VerifyTables, StoredSize;
    if FindDebug(c.tables, c.loadAt).Some? {
      FindDebugBounds(c.tables, -1, c.loadAt);
    }
  }

  /** The part of a scanned image that comes from the relocation table. */
  lemma RelocsSound(file: seq<byte>, c: Context)
    requires ParseContext(file) == Some(c) && ScanUe(file).Some? && LoadSegments(file, c).Some?
    ensures var img, segs := ScanUe(file).value, LoadSegments(file, c).value;
            && SameShape(segs, img.segments) && Ordered(img.relocs) && |img.relocs| <= 0x7FFF_FFFF
            && (img.relocs != [] ==> !img.relocsStripped)
            && exists limit :: InImage(img.relocs, ImageSize(segs), limit)
  {
    hide ParseContext, LoadSegments, LoadSymbolsPath, ScanRelocs, Loadable, VerifyEntries, VerifyTables, StoredSize, TableId,
      TableSize, ImageSize, InImage, Ordered, SameShape;
    var segs, size := LoadSegments(file, c).value, RelocTableSize(c);
    TableInFile(file, c);
    if size == 0 {
      NoRelocs(segs);
    } else {
      var table := file[c.loadAt..c.loadAt + size];
      var r := ScanRelocs(table, segs, c.chained).value;
      ScanRelocsSound(table, segs, c.chained);
      FewRelocs(segs, r.relocs, r.target);
      FramedShape(segs, r);
    }
  }

  lemma NoRelocs(segs: seq<Segment>)
    requires segs != []
    ensures SameShape(segs, segs) && Ordered([]) && InImage([], ImageSize(segs), 0)
  {
  }

  lemma FramedShape(segs: seq<Segment>, s: State)
    requires Framed(segs, s)
    ensures SameShape(segs, s.segs)
  {
  }

  lemma FewRelocs(segs: seq<Segment>, relocs: seq<Reloc>, limit: nat)
    requires Loadable(segs) && Ordered(relocs) && InImage(relocs, ImageSize(segs), limit)
    ensures |relocs| <= 0x7FFF_FFFF
  {
    LoadableEnd(segs, 0);
    FourEach(relocs);
  }

  /**
   * Every UE file that scans gives tiled segments, an aligned base, an entry point in the image and sorted, disjoint
   * relocations inside it; the checker accepts the image exactly if it does not wrap the address space and no
   * relocated word crosses a segment boundary.
   */
  lemma ScannedChecked(file: seq<byte>)
    requires ScanUe(file).Some?
    ensures var img := ScanUe(file).value;
            && CheckedSegments(img.segments, img.alignment) && img.segments[0].address == 0 && Ordered(img.relocs)
            && (exists limit :: InImage(img.relocs, ImageSize(img.segments), limit))
            && (Checked(img) <==>
                  img.header.baseAddress + ImageSize(img.segments) < TWO_64 && AllHold(img.segments, img.relocs))
  {
    hide ParseContext, LoadSegments, LoadSymbolsPath, ScanRelocs, Loadable, CheckedSegments, AllHold, Ordered, Aligned;
    hide InImage, SameShape, ImageSize, VerifyEntries, VerifyTables, StoredSize, TableId, TableSize, RelocTableSize;
    var c, img := ParseContext(file).value, ScanUe(file).value;
    var segs := LoadSegments(file, c).value;
    ParsedHeader(file);
    LoadedChecked(file, c);
    RelocsSound(file, c);
    PathBound(file, c);
    SameChecked(segs, img.segments, c.alignment);
  }

  // ---------------------------------------------------------------- a file that scans and fails the checker

  function Page(address: uint32): Segment { Segment(address, Zeros(0x1000), true, false, false, None, 0x1000) }

  /** Two pages of zeros and a relocation of the first word, at a base that rules out chains. */
  function TwoPages(): Image {
    Image(Header(0x1000, 0, 0x8664, 10, false), 0x1000, [Page(0), Page(0x1000)], false, [Reloc(REL_HIGHLOW, 0)], [], None)
  }

  lemma TwoPagesEmittable()
    ensures Emittable(TwoPages()) && HeaderFits(TwoPages())
    ensures Entries(TwoPages().segments) == [PAGE_ENTRY, PAGE_ENTRY]
  {
    hide IsPow2, Exponent;
    var img := TwoPages();
    PageExponent();
    assert CheckedSegment(img.segments, 0x1000, 0) && CheckedSegment(img.segments, 0x1000, 1);
    assert Locate(img.segments, 0) == 0;
    assert CheckedReloc(img.segments, img.relocs[0]);
    assert TruncatedSegment(img.segments[0], img.relocs) && TruncatedSegment(img.segments[1], img.relocs);
    assert Permissions(img.segments[0]).Some? && Permissions(img.segments[1]).Some?;
    assert UeMachine(0x8664) == Some(1);
  }

  /** A table with one fixup, two bytes before the end of the first page. */
  function CrossingTable(): (t: seq<byte>)
    ensures |t| == 8
  {
    ToLe(0xFFE, 4) + ToLe(HeadEntry(RELOC_32, OFFSET_END), 2) + Zeros(2)
  }

  /** The file of the two pages but for its relocation table. */
  ghost function CrossingFile(): (file: seq<byte>) {
    TwoPagesEmittable();
    Prefix(TwoPages(), 8, 0) + (Zeros(0x2004) + CrossingTable())
  }

  const PAGE_ENTRY := Entry(0x1000, 3, 0x1000)

  lemma TwoEntries()
    ensures StoredSize([PAGE_ENTRY, PAGE_ENTRY]) == 0x2000
    ensures VerifyEntries([PAGE_ENTRY, PAGE_ENTRY], 0x1000, 0) == Some(0x2000)
  {
    var e := PAGE_ENTRY;
    assert [e, e][1..] == [e] && [e][1..] == [];
    assert StoredSize([e]) == 0x1000;
    assert VerifyEntries([], 0x1000, 0x2000) == Some(0x2000);
    assert VerifyEntries([e], 0x1000, 0x1000) == Some(0x2000);
  }

  /** What the loader finds in the file. */
  ghost predicate TwoPagesFound(c: Context) {
    && c.loadAt == 0x2028 && c.bodyAt == 0x24 && c.tables == [LoadTable(TABLE_RELOC, 8)]
    && !c.chained && !c.relocsStripped && c.entries == [PAGE_ENTRY, PAGE_ENTRY] && c.alignment == 0x1000
  }

  lemma CrossingContext()
    ensures Checked(TwoPages()) && HeaderFits(TwoPages()) && TwoPagesFound(EmittedContext(TwoPages(), 8, 0))
  {
    hide HeaderFits, Entries, Checked, LoadTable, StoredSize;
    TwoPagesEmittable();
    TwoEntries();
    DivModUnique(0x2024, 8, 0x404, 4);
  }

  lemma CrossingShape()
    ensures |CrossingFile()| == 0x2030 && CrossingFile()[0x2028..0x2030] == CrossingTable()
  {
    hide Prefix, Emittable, HeaderFits, CrossingTable;
    TwoPagesEmittable();
    var img, z, t := TwoPages(), Zeros(0x2004), CrossingTable();
    assert CrossingFile() == Prefix(img, 8, 0) + (z + t);
    assert (z + t)[0x2004..0x200C] == t;
  }

  lemma CrossingParses()
    requires Checked(TwoPages()) && HeaderFits(TwoPages())
    ensures ParseContext(CrossingFile()) == Some(EmittedContext(TwoPages(), 8, 0))
  {
    hide ParseContext, Prefix, Emittable, Checked, HeaderFits, CrossingTable, EmittedContext;
    TwoPagesEmittable();
    CrossingContext();
    ParseEmitted(TwoPages(), 8, 0, Zeros(0x2004) + CrossingTable());
  }

  /** The decoder takes the fixup, because it lies inside the image. */
  lemma CrossingDecodes(segs: seq<Segment>)
    requires Loadable(segs) && ImageSize(segs) == 0x2000
    ensures ScanRelocs(CrossingTable(), segs, false) == Some(State([Reloc(REL_HIGHLOW, 0xFFE)], segs, 0x1002))
  {
    hide Loadable, ImageSize, ScanHeads, ScanRoots, ToLe, FromLe;
    var t := CrossingTable();
    var u, v := State([], segs, 0xFFE), State([Reloc(REL_HIGHLOW, 0xFFE)], segs, 0x1002);
    Pow256Values();
    FromToLe(0xFFE, 4);
    FromToLe(HeadEntry(RELOC_32, OFFSET_END), 2);
    assert t[0..4] == ToLe(0xFFE, 4) && t[4..6] == ToLe(HeadEntry(RELOC_32, OFFSET_END), 2);
    assert ScanApply(u, RELOC_32) == Some(v) by { assert [] + [Reloc(REL_HIGHLOW, 0xFFE)] == [Reloc(REL_HIGHLOW, 0xFFE)]; }
    HeadsEnd(t, u, 4, false, RELOC_32, v, 6);
    RootsEnd(t, v, 8, false);
    RootsGoOn(t, State([], segs, 0), 0, false, 0xFFE, u, 4, v, 6, 8, v);
  }

  lemma TwoLoaded(bytes: seq<byte>)
    requires |bytes| >= 0x2000
    ensures VerifyEntries([PAGE_ENTRY, PAGE_ENTRY], 0x1000, 0).Some? && StoredSize([PAGE_ENTRY, PAGE_ENTRY]) <= |bytes|
    ensures var segs := LoadEntries([PAGE_ENTRY, PAGE_ENTRY], bytes, 0x1000, 0);
            segs[0].address == 0 && |segs[0].data| == 0x1000 && ImageSize(segs) == 0x2000
  {
    hide VerifyEntries, StoredSize;
    TwoEntries();
    LoadTiled([PAGE_ENTRY, PAGE_ENTRY], bytes, 0x1000, 0);
  }

  lemma CrossingLoads(file: seq<byte>, c: Context)
    requires ParseContext(file) == Some(c) && TwoPagesFound(c)
    ensures LoadSegments(file, c).Some? && LoadSymbolsPath(file, c) == Some(None) && RelocTableSize(c) == 8
    ensures var segs := LoadSegments(file, c).value;
            Loadable(segs) && segs[0].address == 0 && |segs[0].data| == 0x1000 && ImageSize(segs) == 0x2000
  {
    hide ParseContext, LoadEntries, TableId, TableSize, LoadTable, VerifyEntries, StoredSize, Loadable, VerifyTables;
    TwoEntries();
    TwoLoaded(file[c.bodyAt..]);
    LoadTableFields(TABLE_RELOC, 8);
    assert c.tables[1..] == [] && c.tables[0] == LoadTable(TABLE_RELOC, 8);
    assert FindDebug(c.tables, c.loadAt) == None;
  }

  /** A file that scans, although its one relocation crosses from the first page into the second; the checker rejects it. */
  lemma CrossingScans()
    ensures ScanUe(CrossingFile()).Some?
    ensures var img := ScanUe(CrossingFile()).value;
            && img.relocs == [Reloc(REL_HIGHLOW, 0xFFE)] && img.segments != [] && img.segments[0].End() == 0x1000
            && !AllHold(img.segments, img.relocs) && !Checked(img)
  {
    hide ParseContext, CrossingTable, CrossingFile, EmittedContext, HeaderFits, ScanRelocs, VerifyTables, Entries;
    hide LoadSegments, LoadSymbolsPath, RelocTableSize, TableId, VerifyEntries, StoredSize, Loadable;
    CrossingContext();
    CrossingShape();
    CrossingParses();
    var file, c := CrossingFile(), EmittedContext(TwoPages(), 8, 0);
    CrossingLoads(file, c);
    var segs, r := LoadSegments(file, c).value, Reloc(REL_HIGHLOW, 0xFFE);
    CrossingDecodes(segs);
    NotHeld(segs, r);
  }

  lemma NotHeld(segs: seq<Segment>, r: Reloc)
    requires segs != [] && InSegment(segs[0], r.target) && r.End() > segs[0].End()
    ensures !AllHold(segs, [r])
  {
    assert Locate(segs, r.target) == 0;
    assert !CheckedReloc(segs, [r][0]);
  }
}
