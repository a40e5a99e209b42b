/** Which byte sequences are UE files, and what they hold, stated on the bytes themselves (UeImageLib.c, UeScan.c). */
module UeGrammar {
  import opened Bytes
  import opened Image
  import opened UeScan
  import opened UeFormat
  import opened UeFile
  import opened UeLoad
  import opened UeScanner

  // ---------------------------------------------------------------- header and tables

  /** The number of segments and of load tables. */
  function NumSegments(file: seq<byte>): nat
    requires |file| >= 24
  {
    file[3] / 8 + 1
  }

  function NumTables(file: seq<byte>): nat
    requires |file| >= 24
  {
    file[3] % 8
  }

  /** The segment table and the load tables lie in the file. */
  predicate Fronted(file: seq<byte>) {
    |file| >= 24 && 16 + 8 * NumSegments(file) + 4 * NumTables(file) <= |file|
  }

  function SegmentAt(file: seq<byte>, i: nat): Entry
    requires Fronted(file) && i < NumSegments(file)
  {
    var info := Load(file, 16 + 8 * i, 4);
    Entry(info * 0x1000 % TWO_32, info / 0x10_0000 % 4, Load(file, 20 + 8 * i, 4))
  }

  function TableAt(file: seq<byte>, k: nat): nat
    requires Fronted(file) && k < NumTables(file)
  {
    Load(file, 16 + 8 * NumSegments(file) + 4 * k, 4)
  }

  function SegmentsOf(file: seq<byte>): (es: seq<Entry>)
    requires Fronted(file)
    ensures |es| == NumSegments(file) && forall i :: 0 <= i < |es| ==> es[i] == SegmentAt(file, i)
  {
    seq(NumSegments(file), i requires 0 <= i < NumSegments(file) => SegmentAt(file, i))
  }

  function TablesOf(file: seq<byte>): (ts: seq<nat>)
    requires Fronted(file)
    ensures |ts| == NumTables(file) && forall k :: 0 <= k < |ts| ==> ts[k] == TableAt(file, k)
  {
    seq(NumTables(file), k requires 0 <= k < NumTables(file) => TableAt(file, k))
  }

  function Identifier(table: nat): nat { table / 0x2000_0000 }

  function Extent(table: nat): nat { table * 8 % TWO_32 }

  function Sizes(es: seq<Entry>): nat {
    if es == [] then 0 else es[0].size + Sizes(es[1..])
  }

  function Stored(es: seq<Entry>): nat {
    if es == [] then 0 else es[0].fileSize + Stored(es[1..])
  }

  function Extents(ts: seq<nat>): nat {
    if ts == [] then 0 else Extent(ts[0]) + Extents(ts[1..])
  }

  function BodyAt(file: seq<byte>): nat
    requires Fronted(file)
  {
    16 + 8 * NumSegments(file) + 4 * NumTables(file)
  }

  function TablesFrom(file: seq<byte>): nat
    requires Fronted(file)
  {
    AlignUp(BodyAt(file) + Stored(SegmentsOf(file)), 8)
  }

  /** A segment is stored in part, and is a multiple of the alignment. */
  predicate SegmentFormed(e: Entry, alignment: nat) { alignment > 0 && e.fileSize <= e.size && e.size % alignment == 0 }

  predicate SegmentsFormed(es: seq<Entry>, alignment: nat) {
    forall i :: 0 <= i < |es| ==> SegmentFormed(es[i], alignment)
  }

  /** The identifiers of the load tables ascend. */
  predicate Ascending(ts: seq<nat>) {
    forall i, j :: 0 <= i < j < |ts| ==> Identifier(ts[i]) < Identifier(ts[j])
  }

  function AlignmentOf(file: seq<byte>): nat
    requires |file| >= 24
  {
    Pow2(Load(file, 8, 8) / 0x1000_0000_0000_0000 + 12)
  }

  function BaseOf(file: seq<byte>): nat
    requires |file| >= 24
  {
    Load(file, 8, 8) * 0x1000 % TWO_64
  }

  /** The files the loader accepts, as far as header and tables go. */
  predicate UeFormed(file: seq<byte>) {
    && Fronted(file)
    && file[0] == 'U' as int && file[1] == 'E' as int && file[2] / 8 <= 6
    && Load(file, 8, 8) / 0x100_0000_0000_0000 % 2 == 0
    && BaseOf(file) % AlignmentOf(file) == 0
    && SegmentsFormed(SegmentsOf(file), AlignmentOf(file))
    && Sizes(SegmentsOf(file)) < TWO_32
    && Load(file, 4, 4) <= Sizes(SegmentsOf(file))
    && Ascending(TablesOf(file))
    && TablesFrom(file) + Extents(TablesOf(file)) == |file|
    && (NumTables(file) > 0 ==> |file| < TWO_32)
  }

  lemma {:induction false} EntriesRead(bytes: seq<byte>, n: nat, i: nat)
    requires |bytes| == 8 * n && i < n
    ensures ReadEntries(bytes, n)[i] == ReadEntry(bytes[8 * i..8 * i + 8])
    decreases n
  {
    hide ReadEntry;
    if i == 0 {
      ReadLocal(bytes);
    } else {
      EntriesRead(bytes[8..], n - 1, i - 1);
      assert bytes[8..][8 * (i - 1)..8 * (i - 1) + 8] == bytes[8 * i..8 * i + 8];
    }
  }

  lemma ReadLocal(bytes: seq<byte>)
    requires |bytes| >= 8
    ensures ReadEntry(bytes) == ReadEntry(bytes[0..8])
  {
    assert bytes[0..8][0..4] == bytes[0..4] && bytes[0..8][4..8] == bytes[4..8];
  }

  lemma {:induction false} InfosRead(bytes: seq<byte>, n: nat, k: nat)
    requires |bytes| == 4 * n && k < n
    ensures ReadInfos(bytes, n)[k] == Load(bytes, 4 * k, 4)
    decreases n
  {
    hide FromLe;
    if k > 0 {
      InfosRead(bytes[4..], n - 1, k - 1);
      assert bytes[4..][4 * (k - 1)..4 * (k - 1) + 4] == bytes[4 * k..4 * k + 4];
    }
  }

  lemma SliceOfSlice(s: seq<byte>, a: nat, b: nat, i: nat, j: nat)
    requires a <= b <= |s| && i <= j <= b - a
    ensures s[a..b][i..j] == s[a + i..a + j]
  {
    forall k | i <= k < j ensures s[a..b][k] == s[a + k] {
    }
  }

  lemma TablesRead(file: seq<byte>)
    requires Fronted(file)
    ensures var n, t := NumSegments(file), NumTables(file);
            && ReadEntries(file[16..16 + 8 * n], n) == SegmentsOf(file)
            && ReadInfos(file[16 + 8 * n..16 + 8 * n + 4 * t], t) == TablesOf(file)
  {
    hide FromLe, ReadEntries, ReadInfos;
    var n, t := NumSegments(file), NumTables(file);
    var a, b := file[16..16 + 8 * n], file[16 + 8 * n..16 + 8 * n + 4 * t];
    forall i | 0 <= i < n ensures ReadEntries(a, n)[i] == SegmentsOf(file)[i] {
      EntriesRead(a, n, i);
      SliceOfSlice(file, 16, 16 + 8 * n, 8 * i, 8 * i + 8);
      SliceOfSlice(file, 16 + 8 * i, 24 + 8 * i, 0, 4);
      SliceOfSlice(file, 16 + 8 * i, 24 + 8 * i, 4, 8);
    }
    forall k | 0 <= k < t ensures ReadInfos(b, t)[k] == TablesOf(file)[k] {
      InfosRead(b, t, k);
      SliceOfSlice(file, 16 + 8 * n, 16 + 8 * n + 4 * t, 4 * k, 4 * k + 4);
    }
  }

  lemma {:induction false} EntriesVerify(es: seq<Entry>, alignment: nat, address: nat)
    requires alignment > 0 && address < TWO_32
    ensures VerifyEntries(es, alignment, address)
            == if SegmentsFormed(es, alignment) && address + Sizes(es) < TWO_32 then Some(address + Sizes(es)) else None
    decreases |es|
  {
    if es != [] {
      assert SegmentsFormed(es, alignment) <==> SegmentFormed(es[0], alignment) && SegmentsFormed(es[1..], alignment) by {
        if SegmentFormed(es[0], alignment) && SegmentsFormed(es[1..], alignment) {
          forall i | 0 <= i < |es| ensures SegmentFormed(es[i], alignment) {
            assert i > 0 ==> es[i] == es[1..][i - 1];
          }
        }
      }
      if address + es[0].size < TWO_32 {
        EntriesVerify(es[1..], alignment, address + es[0].size);
      }
    }
  }

  lemma {:induction false} StoredIs(es: seq<Entry>)
    ensures StoredSize(es) == Stored(es)
  {
    if es != [] {
      StoredIs(es[1..]);
    }
  }

  ghost predicate AscendingFrom(ts: seq<nat>, prev: int) {
    Ascending(ts) && (ts != [] ==> prev < Identifier(ts[0]))
  }

  lemma {:induction false} TablesVerify(ts: seq<nat>, prev: int, at: nat)
    ensures VerifyTables(ts, prev, at)
            == if AscendingFrom(ts, prev) && (ts == [] || at + Extents(ts) < TWO_32) then Some(at + Extents(ts)) else None
    decreases |ts|
  {
    if ts != [] {
      AscendingSplit(ts, prev);
      if at + Extent(ts[0]) < TWO_32 {
        TablesVerify(ts[1..], Identifier(ts[0]), at + Extent(ts[0]));
      }
    }
  }

  lemma AscendingSplit(ts: seq<nat>, prev: int)
    requires ts != []
    ensures AscendingFrom(ts, prev) <==> prev < Identifier(ts[0]) && AscendingFrom(ts[1..], Identifier(ts[0]))
  {
    hide Identifier;
    var rest := ts[1..];
    if Ascending(ts) {
      forall i, j | 0 <= i < j < |rest| ensures Identifier(rest[i]) < Identifier(rest[j]) {
        assert rest[i] == ts[i + 1] && rest[j] == ts[j + 1];
      }
    }
    if AscendingFrom(rest, Identifier(ts[0])) {
      forall i, j | 0 <= i < j < |ts| ensures Identifier(ts[i]) < Identifier(ts[j]) {
        assert ts[j] == rest[j - 1];
        if i > 0 {
          assert ts[i] == rest[i - 1];
        } else if j > 1 {
          assert Identifier(rest[0]) < Identifier(rest[j - 1]);
        }
      }
    }
  }

  /** The machine an architecture number stands for. */
  function MachineOf(architecture: nat): uint16
    requires architecture <= 6
  {
    match architecture
    case 0 => 0x014C
    case 1 => 0x8664
    case 2 => 0x01C2
    case 3 => 0xAA64
    case 4 => 0x5032
    case 5 => 0x5064
    case _ => 0x5128
  }

  /** What the loader makes of header and tables. */
  ghost predicate ParsedFrom(c: Context, file: seq<byte>)
    requires Fronted(file)
  {
    var info := Load(file, 8, 8);
    && file[2] / 8 <= 6 && c.header.machine == MachineOf(file[2] / 8)
    && c.header.subsystem == file[2] % 8 + 10
    && c.header.entryPoint == Load(file, 4, 4)
    && c.header.baseAddress == BaseOf(file)
    && (c.header.fixedAddress <==> info / 0x200_0000_0000_0000 % 2 == 1)
    && (c.relocsStripped <==> info / 0x400_0000_0000_0000 % 2 == 1)
    && (c.chained <==> info / 0x800_0000_0000_0000 % 2 == 1)
    && c.alignment == AlignmentOf(file)
    && c.entries == SegmentsOf(file) && c.tables == TablesOf(file)
    && c.bodyAt == BodyAt(file) && c.loadAt == TablesFrom(file)
    && c.imageSize == Sizes(SegmentsOf(file))
  }

  lemma MagicIs(file: seq<byte>)
    requires |file| >= 24
    ensures Load(file, 0, 2) == MAGIC <==> file[0] == 'U' as int && file[1] == 'E' as int
  {
    var m := file[0..2];
    assert m[1..] == [file[1]] && m[1..][1..] == [];
    assert FromLe(m[1..]) == file[1] + 256 * FromLe([]);
  }

  /** The loader accepts exactly the well-formed files, and reads their fields. */
  lemma Parses(file: seq<byte>)
    ensures ParseContext(file).Some? <==> UeFormed(file)
    ensures UeFormed(file) ==> ParsedFrom(ParseContext(file).value, file)
  {
    hide FromLe, Load, ReadEntries, ReadInfos, VerifyEntries, VerifyTables, StoredSize, Pow2, AlignAddend, Pow256;
    hide SegmentsOf, TablesOf, Sizes, Stored, Extents, SegmentsFormed, Ascending;
    if Fronted(file) {
      MagicIs(file);
      TablesRead(file);
      var es, ts, a := SegmentsOf(file), TablesOf(file), AlignmentOf(file);
      StoredIs(es);
      EntriesVerify(es, a, 0);
      TablesVerify(ts, -1, TablesFrom(file));
    }
  }

  // ---------------------------------------------------------------- segments, names and the symbols path

  /** Load table k is the debug table. */
  ghost predicate IsDebug(file: seq<byte>, k: nat)
    requires Fronted(file)
  {
    k < NumTables(file) && Identifier(TableAt(file, k)) == 1
  }

  /** Where load table k starts. */
  function TableFrom(file: seq<byte>, k: nat): nat
    requires Fronted(file) && k < NumTables(file)
  {
    TablesFrom(file) + Extents(TablesOf(file)[..k])
  }

  lemma {:induction false} DebugSearch(ts: seq<nat>, at: nat, k: nat)
    requires Ascending(ts) && k < |ts| && Identifier(ts[k]) == 1
    ensures FindDebug(ts, at) == Some((at + Extents(ts[..k]), Extent(ts[k])))
    decreases |ts|
  {
    if k == 0 {
      assert ts[..0] == [];
    } else {
      assert Identifier(ts[0]) < Identifier(ts[k]);
      assert ts[..k][1..] == ts[1..][..k - 1];
      DebugSearch(ts[1..], at + Extent(ts[0]), k - 1);
    }
  }

  lemma {:induction false} NoDebug(ts: seq<nat>, at: nat)
    requires forall k :: 0 <= k < |ts| ==> Identifier(ts[k]) != 1
    ensures FindDebug(ts, at) == None
    decreases |ts|
  {
    if ts != [] {
      assert Identifier(ts[0]) != 1;
      forall k | 0 <= k < |ts[1..]| ensures Identifier(ts[1..][k]) != 1 {
        assert ts[1..][k] == ts[k + 1];
      }
      NoDebug(ts[1..], at + Extent(ts[0]));
    }
  }

  /** The table starts inside the file and ends in it. */
  lemma {:induction false} ExtentsBound(ts: seq<nat>, k: nat)
    requires k < |ts|
    ensures Extents(ts[..k]) + Extent(ts[k]) <= Extents(ts)
    decreases |ts|
  {
    hide Extent;
    if k == 0 {
      assert ts[..0] == [];
    } else {
      assert ts[..k][1..] == ts[1..][..k - 1];
      ExtentsBound(ts[1..], k - 1);
    }
  }

  /** The debug table has room for the path and the names it announces, and the path ends with a zero. */
  ghost predicate DebugFormed(file: seq<byte>, k: nat)
    requires UeFormed(file) && IsDebug(file, k)
  {
    var at, size := TableFrom(file, k), Extent(TableAt(file, k));
    && at + size <= |file| && size >= 3
    && 3 + file[at + 1] + 8 * NumSegments(file) <= size
    && (file[at + 1] == 0 || file[at + 2 + file[at + 1]] == 0)
  }

  /** Segments lie one after the other, their stored bytes too; what is not stored is zero. */
  ghost predicate SegmentFrom(s: Segment, file: seq<byte>, i: nat)
    requires UeFormed(file) && i < NumSegments(file)
  {
    var es := SegmentsOf(file);
    var at, e := BodyAt(file) + Stored(es[..i]), es[i];
    && s.address == Sizes(es[..i]) && |s.data| == e.size && at + e.fileSize <= |file|
    && (forall j :: 0 <= j < |s.data| ==> s.data[j] == if j < e.fileSize then file[at + j] else 0)
    && s.read == (e.permissions != 0) && s.write == (e.permissions == 2) && s.execute == (e.permissions <= 1)
  }

  lemma {:induction false} EntriesLoad(es: seq<Entry>, bytes: seq<byte>, alignment: nat, address: uint32, i: nat)
    requires VerifyEntries(es, alignment, address).Some? && StoredSize(es) <= |bytes| && i < |es|
    ensures Stored(es[..i]) + es[i].fileSize <= |bytes| && es[i].fileSize <= es[i].size
    ensures address + Sizes(es[..i]) < TWO_32
    ensures var at, e := Stored(es[..i]), es[i];
            LoadEntries(es, bytes, alignment, address)[i]
            == EntrySegment(e, bytes[at..at + e.fileSize], address + Sizes(es[..i]))
    decreases |es|
  {
    hide EntrySegment;
    var e := es[0];
    if i == 0 {
      assert es[..0] == [];
    } else {
      EntriesLoad(es[1..], bytes[e.fileSize..], alignment, address + e.size, i - 1);
      assert es[..i][1..] == es[1..][..i - 1];
      var at := Stored(es[1..][..i - 1]);
      assert bytes[e.fileSize..][at..at + es[i].fileSize] == bytes[e.fileSize + at..e.fileSize + at + es[i].fileSize];
    }
  }

  lemma EntryIs(e: Entry, file: seq<byte>, at: nat, address: uint32, s: Segment)
    requires e.fileSize <= e.size && at + e.fileSize <= |file| && s == EntrySegment(e, file[at..at + e.fileSize], address)
    ensures s.address == address && |s.data| == e.size && s.name == None
    ensures forall j :: 0 <= j < |s.data| ==> s.data[j] == if j < e.fileSize then file[at + j] else 0
    ensures s.read == (e.permissions != 0) && s.write == (e.permissions == 2) && s.execute == (e.permissions <= 1)
  {
  }

  lemma SegmentLoaded(file: seq<byte>, c: Context, i: nat)
    requires UeFormed(file) && ParseContext(file) == Some(c) && ParsedFrom(c, file) && i < NumSegments(file)
    ensures SegmentFrom(LoadEntries(c.entries, file[c.bodyAt..], c.alignment, 0)[i], file, i)
  {
    hide ParseContext, VerifyEntries, VerifyTables, StoredSize, LoadEntries, EntrySegment, SegmentsOf, TablesOf, UeFormed;
    hide Sizes, Stored, AlignAddend;
    var es, at := c.entries, Stored(c.entries[..i]);
    EntriesLoad(es, file[c.bodyAt..], c.alignment, 0, i);
    assert file[c.bodyAt..][at..at + es[i].fileSize] == file[c.bodyAt + at..c.bodyAt + at + es[i].fileSize];
    EntryIs(es[i], file, c.bodyAt + at, Sizes(es[..i]), LoadEntries(es, file[c.bodyAt..], c.alignment, 0)[i]);
  }

  /** The name of segment i in the debug table, up to a zero. */
  ghost predicate NameFrom(name: Option<seq<byte>>, file: seq<byte>, k: nat, i: nat)
    requires UeFormed(file) && IsDebug(file, k) && DebugFormed(file, k) && i < NumSegments(file)
  {
    var at := TableFrom(file, k);
    var from := at + 3 + file[at + 1] + 8 * i;
    var field := file[from..from + 8];
    && name.Some? && name.value <= field && 0 !in name.value
    && (|name.value| < 8 ==> field[|name.value|] == 0)
  }

  lemma DebugPlace(file: seq<byte>, c: Context, k: nat)
    requires UeFormed(file) && ParsedFrom(c, file) && IsDebug(file, k)
    ensures var at, size := TableFrom(file, k), Extent(TableAt(file, k));
            FindDebug(c.tables, c.loadAt) == Some((at, size)) && at + size <= |file|
  {
    hide SegmentsOf, Sizes, Stored, AlignAddend, Extents, Ascending, SegmentsFormed, BaseOf, AlignmentOf, Load, FindDebug;
    DebugSearch(TablesOf(file), TablesFrom(file), k);
    ExtentsBound(TablesOf(file), k);
  }

  /** What the loader finds out about the debug table. */
  lemma DebugLoads(file: seq<byte>, c: Context, k: nat)
    requires UeFormed(file) && ParseContext(file) == Some(c) && ParsedFrom(c, file) && IsDebug(file, k)
    ensures LoadSegments(file, c).Some? && LoadSymbolsPath(file, c).Some? <==> DebugFormed(file, k)
    ensures DebugFormed(file, k) ==>
              var at := TableFrom(file, k);
              LoadSymbolsPath(file, c).value
              == if file[at + 1] == 0 then None else Some(file[at + 2..at + 2 + file[at + 1]])
  {
    hide ParseContext, VerifyEntries, VerifyTables, StoredSize, LoadEntries, WithNames, SegmentsOf, Loadable, FindDebug;
    hide UeFormed, TableFrom, TableAt, Extent, Sizes, TablesFrom, TablesOf, BaseOf, AlignmentOf, Load;
    DebugPlace(file, c, k);
    EntryCount(file, c);
  }

  lemma EntryCount(file: seq<byte>, c: Context)
    requires Fronted(file) && ParsedFrom(c, file)
    ensures |c.entries| == NumSegments(file)
  {
  }

  lemma NameLoads(file: seq<byte>, c: Context, k: nat, i: nat)
    requires UeFormed(file) && ParseContext(file) == Some(c) && ParsedFrom(c, file) && IsDebug(file, k)
    requires DebugFormed(file, k) && LoadSegments(file, c).Some? && i < NumSegments(file)
    ensures |LoadSegments(file, c).value| == NumSegments(file) && NameFrom(LoadSegments(file, c).value[i].name, file, k, i)
  {
    hide ParseContext, VerifyEntries, VerifyTables, StoredSize, LoadEntries, WithNames, SegmentsOf, Loadable, FindDebug;
    hide UeFormed, TableFrom, TableAt, Extent, Sizes, TablesFrom, TablesOf, BaseOf, AlignmentOf, Load, CString;
    DebugPlace(file, c, k);
    EntryCount(file, c);
    var at := TableFrom(file, k);
    var loaded, names := LoadEntries(c.entries, file[c.bodyAt..], c.alignment, 0), at + file[at + 1] + 3;
    var fields := file[names..names + 8 * |loaded|];
    NameAt(loaded, fields, i);
    SliceOfSlice(file, names, names + 8 * |loaded|, 8 * i, 8 * (i + 1));
    CStringZero(fields[8 * i..8 * (i + 1)]);
  }

  lemma BareLoads(file: seq<byte>, c: Context)
    requires UeFormed(file) && ParseContext(file) == Some(c) && ParsedFrom(c, file) && forall k: nat :: !IsDebug(file, k)
    ensures LoadSymbolsPath(file, c) == Some(None) && LoadSegments(file, c).Some?
    ensures LoadSegments(file, c).value == LoadEntries(c.entries, file[c.bodyAt..], c.alignment, 0)
  {
    hide ParseContext, VerifyEntries, VerifyTables, StoredSize, LoadEntries, WithNames, SegmentsOf, Loadable, FindDebug;
    hide Sizes, Stored, AlignAddend, Extents, Ascending, SegmentsFormed, BaseOf, AlignmentOf, Load, Identifier;
    forall k | 0 <= k < NumTables(file) ensures Identifier(TablesOf(file)[k]) != 1 {
      assert !IsDebug(file, k);
    }
    NoDebug(TablesOf(file), TablesFrom(file));
  }

  lemma NamesOnly(file: seq<byte>, c: Context, i: nat)
    requires ParseContext(file) == Some(c) && LoadSegments(file, c).Some? && i < |c.entries|
    ensures var s, t := LoadEntries(c.entries, file[c.bodyAt..], c.alignment, 0)[i], LoadSegments(file, c).value[i];
            t == s.(name := t.name)
  {
    hide ParseContext, VerifyEntries, VerifyTables, StoredSize, LoadEntries, FindDebug, Loadable;
    if FindDebug(c.tables, c.loadAt).Some? {
      FindDebugBounds(c.tables, -1, c.loadAt);
    }
  }

  /** A relocation table, if there is one, comes first. */
  ghost predicate HasRelocTable(file: seq<byte>)
    requires Fronted(file)
  {
    NumTables(file) > 0 && Identifier(TableAt(file, 0)) == 0
  }

  ghost predicate DebugSound(file: seq<byte>)
    requires UeFormed(file)
  {
    forall k: nat :: IsDebug(file, k) ==> DebugFormed(file, k)
  }

  /** The segments before relocations are undone. */
  lemma SegmentsScan(file: seq<byte>, c: Context)
    requires UeFormed(file) && ParseContext(file) == Some(c) && ParsedFrom(c, file)
    ensures LoadSegments(file, c).Some? && LoadSymbolsPath(file, c).Some? <==> DebugSound(file)
    ensures DebugSound(file) ==>
              var segs := LoadSegments(file, c).value;
              && |segs| == NumSegments(file)
              && forall i :: 0 <= i < |segs| ==> SegmentFrom(segs[i], file, i)
  {
    hide ParseContext, LoadSegments, LoadSymbolsPath, LoadEntries, VerifyEntries, StoredSize, DebugFormed, SegmentFrom;
    hide UeFormed, IsDebug, Loadable, VerifyTables;
    if k: nat :| IsDebug(file, k) {
      DebugLoads(file, c, k);
      OneDebug(file, k);
    } else {
      BareLoads(file, c);
    }
    if DebugSound(file) {
      var segs := LoadSegments(file, c).value;
      forall i | 0 <= i < |segs| ensures SegmentFrom(segs[i], file, i) {
        SegmentLoaded(file, c, i);
        NamesOnly(file, c, i);
        Renamed(LoadEntries(c.entries, file[c.bodyAt..], c.alignment, 0)[i], segs[i], file, i);
      }
    }
  }

  lemma Renamed(s: Segment, t: Segment, file: seq<byte>, i: nat)
    requires UeFormed(file) && i < NumSegments(file) && SegmentFrom(s, file, i) && t == s.(name := t.name)
    ensures SegmentFrom(t, file, i)
  {
  }

  lemma OneDebug(file: seq<byte>, k: nat)
    requires UeFormed(file) && IsDebug(file, k)
    ensures forall j: nat :: IsDebug(file, j) ==> j == k
  {
    hide BaseOf, AlignmentOf, Sizes, Stored, Extents, SegmentsFormed, Load, Identifier;
    forall j: nat | IsDebug(file, j) ensures j == k {
      AscendingUnique(TablesOf(file), j, k);
    }
  }

  lemma AscendingUnique(ts: seq<nat>, i: nat, j: nat)
    requires Ascending(ts) && i < |ts| && j < |ts| && Identifier(ts[i]) == Identifier(ts[j])
    ensures i == j
  {
  }

  /**
   * Which files scan: well-formed ones whose debug table, if there is one, is sound, and whose relocation table, if there
   * is one, is not marked as stripped and decodes.
   */
  lemma Scans(file: seq<byte>)
    ensures ScanUe(file).Some? <==>
              && UeFormed(file) && DebugSound(file)
              && (HasRelocTable(file) ==>
                    && Load(file, 8, 8) / 0x400_0000_0000_0000 % 2 == 0
                    && var size, at := Extent(TableAt(file, 0)), TablesFrom(file);
                       size > 0 ==>
                         && at + size <= |file| && ParseContext(file).Some?
                         && LoadSegments(file, ParseContext(file).value).Some?
                         && ScanRelocs(file[at..at + size], LoadSegments(file, ParseContext(file).value).value,
                                       Load(file, 8, 8) / 0x800_0000_0000_0000 % 2 == 1).Some?)
  {
    hide ParseContext, LoadSegments, LoadSymbolsPath, ScanRelocs, VerifyEntries, VerifyTables, StoredSize, Loadable, UeFormed;
    hide DebugSound, Load, SegmentsOf, Sizes, Stored, TablesFrom;
    Parses(file);
    if UeFormed(file) {
      var c := ParseContext(file).value;
      SegmentsScan(file, c);
      FirstTable(file, c);
      TableInFile(file, c);
    }
  }

  /** What a scan reports: the fields of header and debug table as they are, and no HII data. */
  lemma ScanFields(file: seq<byte>)
    requires ScanUe(file).Some?
    ensures UeFormed(file) && ParseContext(file).Some?
    ensures var img, c := ScanUe(file).value, ParseContext(file).value;
            && ParsedFrom(c, file)
            && img.header == c.header && img.alignment == c.alignment && img.relocsStripped == c.relocsStripped
            && img.hiiData == [] && LoadSymbolsPath(file, c) == Some(img.symbolsPath)
            && (!HasRelocTable(file) ==> img.relocs == [] && LoadSegments(file, c) == Some(img.segments))
  {
    hide ParseContext, LoadSegments, LoadSymbolsPath, ScanRelocs, Loadable, ParsedFrom;
    Parses(file);
    FirstTable(file, ParseContext(file).value);
  }

  lemma FirstTable(file: seq<byte>, c: Context)
    requires Fronted(file) && ParsedFrom(c, file)
    ensures c.tables != [] && TableId(c.tables[0]) == TABLE_RELOC <==> HasRelocTable(file)
    ensures HasRelocTable(file) ==> RelocTableSize(c) == Extent(TableAt(file, 0))
    ensures !HasRelocTable(file) ==> RelocTableSize(c) == 0
  {
    hide Load, SegmentsOf, Sizes, Stored, TablesFrom;
  }
}
