/** The output validation of a UE file: scan it, check it, compare it (ValidateOutputFile, ToolImageCompare). */
module UeValidate {
  import opened Bytes
  import opened Image
  import opened Truncation
  import opened UeFixups
  import opened UeScan
  import opened UeRoundTrip
  import opened UeBody
  import opened UeFormat
  import opened UeFile
  import opened UeLoad
  import opened UeEndToEnd

  // ---------------------------------------------------------------- comparison

  /** Names agree as far as both go; a scanned name needs a source name. */
  predicate NamesAgree(dest: Option<seq<byte>>, source: Option<seq<byte>>) {
    dest.Some? ==>
      && source.Some?
      && forall i :: 0 <= i < |dest.value| && i < |source.value| ==> dest.value[i] == source.value[i]
  }

  predicate SegmentsAgree(dest: Segment, source: Segment) {
    && dest.address == source.address && dest.data == source.data
    && dest.read == source.read && dest.write == source.write && dest.execute == source.execute
    && NamesAgree(dest.name, source.name)
  }

  /** ToolImageCompare; unpadded sizes are left out on purpose. */
  predicate Compare(dest: Image, source: Image) {
    && dest.header == source.header
    && dest.alignment == source.alignment
    && |dest.segments| == |source.segments|
    && (forall i :: 0 <= i < |dest.segments| ==> SegmentsAgree(dest.segments[i], source.segments[i]))
    && dest.relocsStripped == source.relocsStripped
    && dest.relocs == source.relocs
    && dest.hiiData == source.hiiData
    && dest.symbolsPath == source.symbolsPath
  }

  lemma NamesPrefix(dest: Option<seq<byte>>, source: Option<seq<byte>>)
    ensures NamesAgree(dest, source) <==>
              dest.None? || (source.Some? && (dest.value <= source.value || source.value <= dest.value))
  {
  }

  /**
   * Images compare equal exactly if they differ in nothing but unpadded sizes and names, and each name the scanned one
   * has is a prefix of the other's, or the other way round.
   */
  lemma CompareIs(dest: Image, source: Image)
    ensures Compare(dest, source) <==>
              && dest.(segments := []) == source.(segments := []) && |dest.segments| == |source.segments|
              && forall i :: 0 <= i < |dest.segments| ==>
                   var d, s := dest.segments[i], source.segments[i];
                   && d.(name := None, unpaddedSize := 0) == s.(name := None, unpaddedSize := 0)
                   && (d.name.Some? ==> s.name.Some? && (d.name.value <= s.name.value || s.name.value <= d.name.value))
  {
    hide NamesAgree;
    if |dest.segments| == |source.segments| {
      forall i | 0 <= i < |dest.segments|
        ensures NamesAgree(dest.segments[i].name, source.segments[i].name) <==>
                  var d, s := dest.segments[i].name, source.segments[i].name;
                  d.Some? ==> s.Some? && (d.value <= s.value || s.value <= d.value)
      {
        NamesPrefix(dest.segments[i].name, source.segments[i].name);
      }
    }
  }

  // ---------------------------------------------------------------- what scanning gives

  ghost function ScannedSegment(s: Segment, named: bool): Segment
    requires named ==> s.name.Some?
  {
    s.(unpaddedSize := 0, name := if named then Some(CString(NameField(s.name.value))) else None)
  }

  ghost function ScannedSegments(segs: seq<Segment>, named: bool): (t: seq<Segment>)
    requires named ==> Named(segs)
    ensures |t| == |segs|
    ensures forall i :: 0 <= i < |t| ==> t[i] == ScannedSegment(segs[i], named)
  {
    if segs == [] then [] else [ScannedSegment(segs[0], named)] + ScannedSegments(segs[1..], named)
  }

  /** The image a scan of the emitted file yields. */
  ghost function Rescanned(img: Image): Image
    requires img.symbolsPath.Some? ==> Named(img.segments)
  {
    img.(header := img.header.(subsystem := SubsystemField(img.header.subsystem) + 10),
         segments := ScannedSegments(img.segments, img.symbolsPath.Some?),
         hiiData := [],
         symbolsPath := if img.symbolsPath == Some([]) then None else img.symbolsPath)
  }

  // ---------------------------------------------------------------- segments

  lemma {:induction false} SameEntries(s: seq<Segment>, t: seq<Segment>)
    requires SameShape(s, t) && AllPermitted(s)
    ensures AllPermitted(t) && Entries(t) == Entries(s)
  {
    forall i | 0 <= i < |t| ensures Permissions(t[i]).Some? {
      assert Permissions(s[i]).Some?;
    }
    if s != [] {
      assert SameShape(s[1..], t[1..]) by {
        forall i | 0 <= i < |s[1..]| ensures |s[1..][i].data| == |t[1..][i].data| && s[1..][i] == t[1..][i].(data := s[1..][i].data) {
          assert s[1..][i] == s[i + 1] && t[1..][i] == t[i + 1];
        }
      }
      SameEntries(s[1..], t[1..]);
    }
  }

  lemma PackedFacts(img: Image)
    requires Emittable(img) && HeaderFits(img) && Fixups(img).Some?
    ensures var p := PackedSegments(img);
            && Tiled(p, img.alignment, 0) && ZeroTails(p) && AllPermitted(p) && Sized(p)
            && Entries(p) == Entries(img.segments) && |Body(p)| == StoredSize(Entries(img.segments))
            && VerifyEntries(Entries(p), img.alignment, 0).Some?
  {
    hide Fixups, Chained, Body, Entries, VerifyEntries, StoredSize, Tiled, Truncated, AllPermitted, CheckedSegment;
    var p, fs := PackedSegments(img), Fixups(img).value;
    FixupsFacts(img);
    EmittedZeroTails(img);
    SameBodySize(img.segments, p);
    SameEntries(img.segments, p);
    SameChecked(img.segments, p, img.alignment);
    CheckedTiled(p, img.alignment, 0);
    assert p[0..] == p;
    forall i | 0 <= i < |p| ensures ZeroTail(p[i]) {
      ChainedTail(img.segments, img.alignment, img.relocs, fs, Chaining(img.header), i);
    }
    VerifyEmitted(p, img.alignment, 0);
  }

  // ---------------------------------------------------------------- the parts of an emitted file

  ghost function RelocBytes(img: Image): (t: seq<byte>)
    requires Checked(img) && Fixups(img).Some?
    ensures |t| % 8 == 0 && (img.relocs == [] <==> |t| == 0)
  {
    FixupsFacts(img);
    var fs := Fixups(img).value;
    PaddedTable(fs)
  }

  ghost predicate Emitted(img: Image, subtrahend: uint32, file: seq<byte>) {
    Emittable(img) && FileBytes(img, subtrahend) == Some(file) && |file| < TWO_32
  }

  lemma EmittedHas(img: Image, subtrahend: uint32, file: seq<byte>)
    requires Emitted(img, subtrahend, file)
    ensures HeaderFits(img) && Fixups(img).Some? && DebugTable(img, subtrahend).Some?
    ensures img.symbolsPath.Some? ==> Named(img.segments)
  {
  }

  ghost function EmittedInto(img: Image, subtrahend: uint32, file: seq<byte>): (c: Context)
    requires Emitted(img, subtrahend, file)
  {
    EmittedHas(img, subtrahend, file);
    EmittedContext(img, |RelocBytes(img)|, |DebugTable(img, subtrahend).value|)
  }

  /** Where the parts are. */
  lemma EmittedSlices(img: Image, subtrahend: uint32, file: seq<byte>)
    requires Emitted(img, subtrahend, file)
    ensures HeaderFits(img) && Fixups(img).Some? && DebugTable(img, subtrahend).Some?
    ensures var c, table, debug := EmittedInto(img, subtrahend, file), RelocBytes(img), DebugTable(img, subtrahend).value;
            && Sized(PackedSegments(img))
            && c.bodyAt <= c.loadAt && c.loadAt + |table| + |debug| == |file|
            && Body(PackedSegments(img)) <= file[c.bodyAt..]
            && file[c.loadAt..c.loadAt + |table|] == table
            && file[c.loadAt + |table|..] == debug
            && file[..c.bodyAt] == Prefix(img, |table|, |debug|)
  {
    hide Truncated, Prefix, Body, PackedSegments, Fixups, DebugTable, Entries, StoredSize, Tables, Tiled, ZeroTails;
    hide CheckedSegment, CheckedRelocs, PaddedTable, AllPermitted, AlignAddend, RelocBytes, NumTables, VerifyEntries;
    EmittedHas(img, subtrahend, file);
    EmittedIs(img, subtrahend, file);
    PackedFacts(img);
    var table, debug := RelocBytes(img), DebugTable(img, subtrahend).value;
    var p, b := Prefix(img, |table|, |debug|), Body(PackedSegments(img));
    var z := Zeros(AlignAddend(|p + b|, 8));
    FileSlices(p, b, z, table, debug);
    assert EmittedInto(img, subtrahend, file).loadAt == |p| + |b| + |z|;
  }

  lemma EmittedIs(img: Image, subtrahend: uint32, file: seq<byte>)
    requires Emitted(img, subtrahend, file)
    requires HeaderFits(img) && Fixups(img).Some? && DebugTable(img, subtrahend).Some?
    ensures var table, debug := RelocBytes(img), DebugTable(img, subtrahend).value;
            var p := Prefix(img, |table|, |debug|) + Body(PackedSegments(img));
            file == p + Zeros(AlignAddend(|p|, 8)) + table + debug
  {
    hide Truncated, Prefix, Body, PackedSegments, Fixups, DebugTable, CheckedSegment, CheckedRelocs, PaddedTable;
    hide AlignAddend;
  }

  lemma FileSlices(p: seq<byte>, b: seq<byte>, z: seq<byte>, t: seq<byte>, d: seq<byte>)
    ensures var f, at := p + b + z + t + d, |p| + |b| + |z|;
            f[..|p|] == p && b <= f[|p|..] && f[at..at + |t|] == t && f[at + |t|..] == d
  {
  }

  lemma EmittedParses(img: Image, subtrahend: uint32, file: seq<byte>)
    requires Emitted(img, subtrahend, file)
    ensures ParseContext(file) == Some(EmittedInto(img, subtrahend, file))
  {
    hide Truncated, Prefix, Body, PackedSegments, Fixups, Entries, StoredSize, Tables, ParseContext, FileBytes;
    hide CheckedSegment, CheckedRelocs, PaddedTable, AllPermitted, NameFields;
    EmittedHas(img, subtrahend, file);
    EmittedSlices(img, subtrahend, file);
    var c, table, debug := EmittedInto(img, subtrahend, file), RelocBytes(img), DebugTable(img, subtrahend).value;
    assert file == Prefix(img, |table|, |debug|) + file[c.bodyAt..];
    ParseEmitted(img, |table|, |debug|, file[c.bodyAt..]);
  }

  // ---------------------------------------------------------------- the debug table of an emitted file

  lemma {:induction false} NamesLoad(segs: seq<Segment>, loaded: seq<Segment>, i: nat)
    requires Named(segs) && |loaded| == |segs| && i < |segs|
    ensures WithNames(loaded, NameFields(segs))[i]
            == loaded[i].(name := Some(CString(NameField(segs[i].name.value))))
    decreases |segs|
  {
    var f, rest := NameField(segs[0].name.value), NameFields(segs[1..]);
    assert (f + rest)[..8] == f && (f + rest)[8..] == rest;
    if i > 0 {
      NamesLoad(segs[1..], loaded[1..], i - 1);
    }
  }

  lemma DebugFound(img: Image, relocSize: nat, debugSize: nat, at: nat)
    requires relocSize % 8 == 0 && debugSize % 8 == 0 && relocSize < TWO_32 && debugSize < TWO_32
    requires img.relocs == [] ==> relocSize == 0
    ensures FindDebug(Tables(img, relocSize, debugSize), at)
            == if img.symbolsPath.Some? then Some((at + relocSize, debugSize)) else None
  {
    hide LoadTable, TableId, TableSize;
    LoadTableFields(TABLE_RELOC, relocSize);
    LoadTableFields(TABLE_DEBUG, debugSize);
    var x, y := LoadTable(TABLE_RELOC, relocSize), LoadTable(TABLE_DEBUG, debugSize);
    if img.relocs != [] && img.symbolsPath.Some? {
      assert [x, y][1..] == [y];
      assert Tables(img, relocSize, debugSize) == [x, y];
    } else if img.relocs != [] {
      assert [x][1..] == [];
      assert Tables(img, relocSize, debugSize) == [x];
    } else if img.symbolsPath.Some? {
      assert Tables(img, relocSize, debugSize) == [y];
    }
  }

  /** The fields of the emitted debug table, found at position `at` of any file that ends with it. */
  lemma DebugReads(img: Image, subtrahend: uint32, file: seq<byte>, at: nat)
    requires img.alignment > 0 && img.symbolsPath.Some? && DebugTable(img, subtrahend).Some?
    requires at <= |file| && file[at..] == DebugTable(img, subtrahend).value
    ensures var debug, path := DebugTable(img, subtrahend).value, img.symbolsPath.value;
            && |path| <= 0xFF && Named(img.segments)
            && at + |path| + 3 + 8 * |img.segments| <= |file|
            && DebugFits(file, at, |debug|, |img.segments|)
            && file[at + 1] == |path|
            && file[at + 2..at + 2 + |path|] == path
            && file[at + 2 + |path|] == 0
            && file[at + |path| + 3..at + |path| + 3 + 8 * |img.segments|] == NameFields(img.segments)
  {
    hide NameFields, AlignAddend;
    var path, names := img.symbolsPath.value, NameFields(img.segments);
    var debug := DebugTable(img, subtrahend).value;
    var t := [subtrahend / img.alignment % 0x100, |path|] + path + [0] + names;
    var z := Zeros(AlignAddend(|t|, 8));
    assert debug == t + z;
    assert file == file[..at] + debug;
    assert debug[1] == |path| && debug[2..2 + |path|] == path && debug[2 + |path|] == 0;
    assert debug[|path| + 3..|path| + 3 + |names|] == names;
    SubSlice(file, at, debug, 2, 2 + |path|);
    SubSlice(file, at, debug, |path| + 3, |path| + 3 + |names|);
    assert file[at + 1] == debug[1] && file[at + 2 + |path|] == debug[2 + |path|];
  }

  lemma SubSlice(file: seq<byte>, at: nat, part: seq<byte>, i: nat, j: nat)
    requires at <= |file| && file[at..] == part && i <= j <= |part|
    ensures file[at + i..at + j] == part[i..j]
  {
    assert file[at..][i..j] == file[at + i..at + j];
  }

  // ---------------------------------------------------------------- loading the segments of an emitted file

  lemma ScannedRelabelled(segs: seq<Segment>, named: bool)
    requires named ==> Named(segs)
    ensures Relabelled(segs, ScannedSegments(segs, named))
  {
  }

  lemma EmittedLoadsBare(img: Image, subtrahend: uint32, file: seq<byte>)
    requires Emitted(img, subtrahend, file) && ParseContext(file) == Some(EmittedInto(img, subtrahend, file))
    requires HeaderFits(img) && Fixups(img).Some?
    ensures var c, p := EmittedInto(img, subtrahend, file), PackedSegments(img);
            var loaded := LoadEntries(c.entries, file[c.bodyAt..], c.alignment, 0);
            |loaded| == |p| && forall i :: 0 <= i < |p| ==> loaded[i] == Bare(p[i])
  {
    hide Truncated, Prefix, Body, PackedSegments, Fixups, Entries, StoredSize, Tables, ParseContext, FileBytes;
    hide CheckedSegment, CheckedRelocs, PaddedTable, AllPermitted, NameFields, DebugTable, LoadEntries;
    hide VerifyEntries, VerifyTables, Tiled, ZeroTails, Sized;
    var c, p := EmittedInto(img, subtrahend, file), PackedSegments(img);
    EmittedSlices(img, subtrahend, file);
    PackedFacts(img);
    var rest := file[c.bodyAt..][|Body(p)|..];
    assert file[c.bodyAt..] == Body(p) + rest;
    var loaded := LoadEntries(c.entries, file[c.bodyAt..], c.alignment, 0);
    forall i | 0 <= i < |p| ensures loaded[i] == Bare(p[i]) {
      BodyLoads(p, rest, img.alignment, 0, i);
    }
  }

  lemma EmittedDebug(img: Image, subtrahend: uint32, file: seq<byte>)
    requires Emitted(img, subtrahend, file)
    ensures HeaderFits(img) && Fixups(img).Some? && DebugTable(img, subtrahend).Some?
    ensures var c, at := EmittedInto(img, subtrahend, file), EmittedInto(img, subtrahend, file).loadAt + |RelocBytes(img)|;
            && at <= |file| && file[at..] == DebugTable(img, subtrahend).value
            && FindDebug(c.tables, c.loadAt)
               == if img.symbolsPath.Some? then Some((at, |DebugTable(img, subtrahend).value|)) else None
  {
    hide Truncated, Prefix, Body, PackedSegments, Fixups, Entries, StoredSize, Tables, FileBytes;
    hide CheckedSegment, CheckedRelocs, PaddedTable, AllPermitted, DebugTable, FindDebug, Sized;
    EmittedHas(img, subtrahend, file);
    EmittedSlices(img, subtrahend, file);
    var c := EmittedInto(img, subtrahend, file);
    DebugFound(img, |RelocBytes(img)|, |DebugTable(img, subtrahend).value|, c.loadAt);
  }

  lemma LabelsLoaded(segs: seq<Segment>, p: seq<Segment>, loaded: seq<Segment>)
    requires SameShape(segs, p) && |loaded| == |p| && forall i :: 0 <= i < |p| ==> loaded[i] == Bare(p[i])
    ensures LabelledFrom(p, ScannedSegments(segs, false), loaded)
    ensures Named(segs) ==> LabelledFrom(p, ScannedSegments(segs, true), WithNames(loaded, NameFields(segs)))
  {
    hide WithNames, NameFields, CString, NameField;
    if Named(segs) {
      forall i | 0 <= i < |p|
        ensures WithNames(loaded, NameFields(segs))[i] == loaded[i].(name := Some(CString(NameField(segs[i].name.value))))
      {
        NamesLoad(segs, loaded, i);
      }
    }
  }

  /** What LoadSegments makes of the emitted file. */
  lemma EmittedLoadSegments(img: Image, subtrahend: uint32, file: seq<byte>)
    requires Emitted(img, subtrahend, file) && ParseContext(file) == Some(EmittedInto(img, subtrahend, file))
    requires img.symbolsPath.Some? ==> Named(img.segments)
    ensures var c := EmittedInto(img, subtrahend, file);
            var loaded := LoadEntries(c.entries, file[c.bodyAt..], c.alignment, 0);
            && |loaded| == |img.segments|
            && LoadSegments(file, c)
               == Some(if img.symbolsPath.Some? then WithNames(loaded, NameFields(img.segments)) else loaded)
  {
    hide Truncated, Prefix, PackedSegments, Fixups, Entries, Tables, ParseContext, FileBytes, Checked;
    hide PaddedTable, AllPermitted, NameFields, DebugTable, FindDebug, LoadEntries, Sized, Body;
    hide VerifyEntries, VerifyTables, StoredSize, WithNames, DebugFits, Loadable;
    var c := EmittedInto(img, subtrahend, file);
    EmittedDebug(img, subtrahend, file);
    EmittedCount(img, subtrahend, file);
    if img.symbolsPath.Some? {
      DebugReads(img, subtrahend, file, c.loadAt + |RelocBytes(img)|);
    }
  }

  lemma EmittedCount(img: Image, subtrahend: uint32, file: seq<byte>)
    requires Emitted(img, subtrahend, file)
    ensures |EmittedInto(img, subtrahend, file).entries| == |img.segments|
  {
    EmittedHas(img, subtrahend, file);
  }

  /** The loaded segments are the scanned image's segments with their chains still packed. */
  lemma EmittedLoads(img: Image, subtrahend: uint32, file: seq<byte>)
    requires Emitted(img, subtrahend, file) && ParseContext(file) == Some(EmittedInto(img, subtrahend, file))
    requires img.symbolsPath.Some? ==> Named(img.segments)
    requires Checked(img) && HeaderFits(img) && Fixups(img).Some?
    ensures var c, n := EmittedInto(img, subtrahend, file), ScannedSegments(img.segments, img.symbolsPath.Some?);
            && LoadSegments(file, c).Some?
            && LabelledFrom(PackedSegments(img), n, LoadSegments(file, c).value)
  {
    hide *;
    var c := EmittedInto(img, subtrahend, file);
    EmittedLoadsBare(img, subtrahend, file);
    EmittedLoadSegments(img, subtrahend, file);
    LabelsLoaded(img.segments, PackedSegments(img), LoadEntries(c.entries, file[c.bodyAt..], c.alignment, 0));
  }

  // ---------------------------------------------------------------- scanning an emitted file

  lemma ScannedLoadable(img: Image)
    requires Emittable(img) && HeaderFits(img) && (img.symbolsPath.Some? ==> Named(img.segments))
    ensures var n := ScannedSegments(img.segments, img.symbolsPath.Some?);
            Loadable(n) && CheckedSegments(n, img.alignment) && ImageSize(n) == ImageSize(img.segments)
  {
    hide ScannedSegment, Truncated, CheckedRelocs;
    var n := ScannedSegments(img.segments, img.symbolsPath.Some?);
    ScannedRelabelled(img.segments, img.symbolsPath.Some?);
    forall i | 0 <= i < |n| ensures CheckedSegment(n, img.alignment, i) {
      assert CheckedSegment(img.segments, img.alignment, i);
    }
    AlignmentPages(img.alignment);
    CheckedLoadable(n, img.alignment);
  }

  /** Relabelling the packed segments and undoing the chains gives the relabelled segments. */
  lemma ScannedRelocs(segs: seq<Segment>, n: seq<Segment>, relocs: seq<Reloc>, chaining: bool, loaded: seq<Segment>)
    requires Relabelled(segs, n) && Loadable(n) && AllHold(segs, relocs) && Ordered(relocs)
    requires Plan(segs, relocs, chaining).Some? && FixupsHold(segs, Plan(segs, relocs, chaining).value)
    requires LabelledFrom(Chained(segs, Plan(segs, relocs, chaining).value, chaining, 0), n, loaded)
    ensures var fs := Plan(segs, relocs, chaining).value;
            && WellFormed(fs) && Loadable(loaded)
            && exists end :: ScanRelocs(PaddedTable(fs), loaded, chaining) == Some(State(relocs, n, end))
  {
    hide Loadable, Plan, Chained, Relabelled, WellFormed, PaddedTable, AllHold, ScanRelocs;
    var fs := Plan(segs, relocs, chaining).value;
    RelabelledHold(segs, n, relocs);
    RelabelledPlan(segs, n, relocs, chaining);
    RelocsRoundTrip(n, relocs, chaining);
    RelabelledChained(segs, n, fs, chaining, 0);
    assert loaded == Chained(n, fs, chaining, 0);
  }

  lemma EmittedTable(img: Image, subtrahend: uint32, file: seq<byte>)
    requires Emitted(img, subtrahend, file)
    ensures HeaderFits(img) && Fixups(img).Some?
    ensures var c, n := EmittedInto(img, subtrahend, file), |RelocBytes(img)|;
            && RelocTableSize(c) == n && c.loadAt + n <= |file|
            && file[c.loadAt..c.loadAt + n] == RelocBytes(img)
            && (img.relocs == [] ==> !(c.tables != [] && TableId(c.tables[0]) == TABLE_RELOC))
  {
    hide Truncated, Prefix, Body, PackedSegments, Fixups, Entries, StoredSize, FileBytes, Sized;
    hide Checked, PaddedTable, AllPermitted, DebugTable, LoadTable, TableId, TableSize;
    EmittedHas(img, subtrahend, file);
    EmittedSlices(img, subtrahend, file);
    LoadTableFields(TABLE_RELOC, |RelocBytes(img)|);
    LoadTableFields(TABLE_DEBUG, |DebugTable(img, subtrahend).value|);
  }

  lemma EmittedPath(img: Image, subtrahend: uint32, file: seq<byte>)
    requires Emitted(img, subtrahend, file) && ParseContext(file) == Some(EmittedInto(img, subtrahend, file))
    ensures LoadSymbolsPath(file, EmittedInto(img, subtrahend, file))
            == Some(if img.symbolsPath == Some([]) then None else img.symbolsPath)
  {
    hide Truncated, Prefix, PackedSegments, Fixups, Entries, Tables, ParseContext, FileBytes, Checked;
    hide PaddedTable, AllPermitted, NameFields, DebugTable, FindDebug, LoadEntries, Sized, Body;
    hide VerifyEntries, VerifyTables, StoredSize, WithNames, DebugFits, Loadable;
    var c := EmittedInto(img, subtrahend, file);
    EmittedDebug(img, subtrahend, file);
    EmittedCount(img, subtrahend, file);
    if img.symbolsPath.Some? {
      DebugReads(img, subtrahend, file, c.loadAt + |RelocBytes(img)|);
    }
  }

  /** Undoing the chains of the loaded segments; without relocations there is no table and nothing to undo. */
  lemma EmittedRelocs(img: Image, n: seq<Segment>, loaded: seq<Segment>)
    requires Checked(img) && Fixups(img).Some?
    requires Relabelled(img.segments, n) && Loadable(n) && LabelledFrom(PackedSegments(img), n, loaded)
    ensures Loadable(loaded)
    ensures img.relocs == [] ==> loaded == n
    ensures img.relocs != [] ==>
              exists end :: ScanRelocs(RelocBytes(img), loaded, Chaining(img.header)) == Some(State(img.relocs, n, end))
  {
    hide Loadable, CheckedSegment, PaddedTable, Plan, ScanRelocs;
    FixupsFacts(img);
    ScannedRelocs(img.segments, n, img.relocs, Chaining(img.header), loaded);
    if img.relocs == [] {
      assert Fixups(img).value == [];
      assert loaded == n;
    }
  }

  lemma ScanIs(file: seq<byte>, c: Context, n: seq<Segment>, relocs: seq<Reloc>, path: Option<seq<byte>>)
    requires ParseContext(file) == Some(c) && LoadSegments(file, c).Some? && LoadSymbolsPath(file, c) == Some(path)
    requires relocs != [] ==> !c.relocsStripped
    requires relocs == [] ==>
               && RelocTableSize(c) == 0 && !(c.tables != [] && TableId(c.tables[0]) == TABLE_RELOC)
               && LoadSegments(file, c).value == n
    requires relocs != [] ==>
               && RelocTableSize(c) > 0 && c.loadAt + RelocTableSize(c) <= |file|
               && exists end :: ScanRelocs(file[c.loadAt..c.loadAt + RelocTableSize(c)], LoadSegments(file, c).value, c.chained)
                                == Some(State(relocs, n, end))
    ensures ScanUe(file) == Some(Image(c.header, c.alignment, n, c.relocsStripped, relocs, [], path))
  {
    hide ParseContext, LoadSegments, LoadSymbolsPath, RelocTableSize, TableId, ScanRelocs, Loadable, VerifyEntries;
    hide VerifyTables, StoredSize, IsPow2;
  }

  ghost predicate SaysAsMuch(c: Context, img: Image) {
    && c.header == img.header.(subsystem := SubsystemField(img.header.subsystem) + 10)
    && c.alignment == img.alignment && c.relocsStripped == img.relocsStripped && c.chained == Chaining(img.header)
  }

  lemma EmittedSays(img: Image, subtrahend: uint32, file: seq<byte>)
    requires Emitted(img, subtrahend, file)
    ensures SaysAsMuch(EmittedInto(img, subtrahend, file), img)
  {
    EmittedHas(img, subtrahend, file);
  }

  /** Scanning an emitted file: everything comes back but for what Rescanned changes. */
  lemma EmittedScans(img: Image, subtrahend: uint32, file: seq<byte>)
    requires Emitted(img, subtrahend, file)
    ensures img.symbolsPath.Some? ==> Named(img.segments)
    ensures ScanUe(file) == Some(Rescanned(img))
  {
    hide Truncated, Prefix, PackedSegments, Fixups, ParseContext, FileBytes, Chaining, EmittedInto, HeaderFits;
    hide RelocTableSize, TableId, Loadable, RelocBytes, ScanRelocs, ScanUe, ScannedSegments;
    hide LabelledFrom, Relabelled, LoadSymbolsPath, LoadSegments, CheckedSegments, CheckedRelocs, CheckedHeader;
    EmittedHas(img, subtrahend, file);
    EmittedSays(img, subtrahend, file);
    EmittedParses(img, subtrahend, file);
    EmittedLoads(img, subtrahend, file);
    EmittedTable(img, subtrahend, file);
    EmittedPath(img, subtrahend, file);
    ScannedLoadable(img);
    ScannedRelabelled(img.segments, img.symbolsPath.Some?);
    var c, n := EmittedInto(img, subtrahend, file), ScannedSegments(img.segments, img.symbolsPath.Some?);
    EmittedRelocs(img, n, LoadSegments(file, c).value);
    ScanIs(file, c, n, img.relocs, if img.symbolsPath == Some([]) then None else img.symbolsPath);
  }

  // ---------------------------------------------------------------- checking and comparing

  lemma RescannedChecked(img: Image)
    requires Emittable(img) && HeaderFits(img) && (img.symbolsPath.Some? ==> Named(img.segments))
    ensures Checked(Rescanned(img))
  {
    hide ScannedSegment, Truncated, ScannedSegments, CheckedSegment, AllHold;
    var n := ScannedSegments(img.segments, img.symbolsPath.Some?);
    ScannedLoadable(img);
    ScannedRelabelled(img.segments, img.symbolsPath.Some?);
    RelabelledHold(img.segments, n, img.relocs);
    assert n[0].address == img.segments[0].address;
  }

  lemma {:induction false} CStringEnds(bytes: seq<byte>, i: nat)
    requires i < |CString(bytes)|
    ensures bytes[i] != 0
    decreases bytes
  {
    if i > 0 {
      CStringEnds(bytes[1..], i - 1);
    }
  }

  /** A name read back agrees with the name stored, even where the field cuts it off. */
  lemma NameAgrees(name: seq<byte>)
    ensures NamesAgree(Some(CString(NameField(name))), Some(name))
  {
    hide CString;
    var f := NameField(name);
    forall i | 0 <= i < |CString(f)| && i < |name| ensures CString(f)[i] == name[i] {
      CStringEnds(f, i);
    }
  }

  lemma ScannedAgree(segs: seq<Segment>, named: bool, i: nat)
    requires named ==> Named(segs)
    requires i < |segs|
    ensures SegmentsAgree(ScannedSegments(segs, named)[i], segs[i])
  {
    hide CString, NameField;
    if named {
      NameAgrees(segs[i].name.value);
    }
  }

  /** Exactly when the scanned image passes the comparison with the emitted one. */
  lemma RescannedCompares(img: Image)
    requires SubsystemField(img.header.subsystem) < 8 && img.hiiData == []
    requires img.symbolsPath.Some? ==> Named(img.segments)
    ensures Compare(Rescanned(img), img) <==> 10 <= img.header.subsystem <= 17 && img.symbolsPath != Some([])
  {
    hide ScannedSegments, SegmentsAgree, Named;
    var named := img.symbolsPath.Some?;
    forall i | 0 <= i < |img.segments| ensures SegmentsAgree(ScannedSegments(img.segments, named)[i], img.segments[i]) {
      ScannedAgree(img.segments, named, i);
    }
  }

  /**
   * Output validation of an emitted UE file: it always scans, the scanned image always passes the checker, and it
   * compares equal exactly when the subsystem is one of the eight UEFI ones and the symbols path is not empty.
   */
  lemma EmittedValidates(img: Image, subtrahend: uint32, file: seq<byte>)
    requires Emitted(img, subtrahend, file)
    ensures ScanUe(file).Some? && Checked(ScanUe(file).value)
    ensures Compare(ScanUe(file).value, img) <==> 10 <= img.header.subsystem <= 17 && img.symbolsPath != Some([])
  {
    EmittedHas(img, subtrahend, file);
    EmittedScans(img, subtrahend, file);
    RescannedChecked(img);
    RescannedCompares(img);
  }

  /** A file holds every relocated word, so it has at least four bytes for each relocation. */
  lemma EmittedFew(img: Image, subtrahend: uint32, file: seq<byte>)
    requires Emitted(img, subtrahend, file)
    ensures 4 * |img.relocs| + HEADER_SIZE + SEGMENT_HEADER_SIZE <= |file|
  {
    hide FileBytes, Fixups, PackedSegments, Body, Prefix, DebugTable, CheckedSegment, Truncated, Ordered, AllHold, RelocBytes;
    hide HeaderFits, Ascend, Entries, StoredSize, Tables;
    EmittedSlices(img, subtrahend, file);
    EmittedHas(img, subtrahend, file);
    PackedShape(img);
    TruncatedSized(img.segments, img.relocs);
    SameBodySize(img.segments, PackedSegments(img));
    CheckedAscend(img.segments, img.alignment);
    if img.relocs != [] {
      RelocsInBody(img.segments, img.relocs, |img.relocs|);
    }
  }

  lemma PackedShape(img: Image)
    requires Checked(img) && Fixups(img).Some?
    ensures SameShape(img.segments, PackedSegments(img))
  {
  }

  lemma CheckedAscend(segs: seq<Segment>, alignment: nat)
    requires CheckedSegments(segs, alignment)
    ensures Ascend(segs)
  {
    forall i, j | 0 <= i < j < |segs| ensures segs[i].End() <= segs[j].address {
      TilesOrdered(segs, alignment, i, j);
    }
  }

  // ---------------------------------------------------------------- two files that fail their own validation

  /** One zero page, with the given subsystem and symbols path. */
  function ZeroPage(subsystem: uint16, path: Option<seq<byte>>): Image {
    Image(Header(0, 0, 0x8664, subsystem, false), 0x1000,
          [Segment(0, Zeros(0x1000), true, false, false, Some([]), 0)], false, [], [], path)
  }

  lemma PageExponent()
    ensures IsPow2(0x1000) && Exponent(0x1000) == 12
  {
    assert IsPow2(0x10) && Exponent(0x10) == 4;
    assert IsPow2(0x100) && Exponent(0x100) == 8;
  }

  lemma ZeroPageEmittable(subsystem: uint16, path: Option<seq<byte>>)
    requires path.Some? ==> path.value == []
    ensures Emittable(ZeroPage(subsystem, path))
    ensures AllPermitted(ZeroPage(subsystem, path).segments) && Exponent(0x1000) == 12
  {
    hide IsPow2, Exponent;
    var img := ZeroPage(subsystem, path);
    PageExponent();
    assert Permissions(img.segments[0]).Some?;
    assert TruncatedSegment(img.segments[0], []);
    assert CheckedSegment(img.segments, 0x1000, 0);
  }

  lemma ZeroPageEmits(subsystem: uint16, path: Option<seq<byte>>)
    requires (path.Some? ==> path.value == []) && SubsystemField(subsystem) < 8
    ensures var img := ZeroPage(subsystem, path);
            Emittable(img) && FileBytes(img, 0).Some? && Emitted(img, 0, FileBytes(img, 0).value)
  {
    hide IsPow2, Exponent, AllPermitted, Chained, Checked, Truncated, Body, PackedSegments, Prefix, NameFields;
    hide VerifyEntries;
    hide Tiled, ZeroTails, Sized;
    var img := ZeroPage(subsystem, path);
    ZeroPageEmittable(subsystem, path);
    assert UeMachine(0x8664) == Some(1);
    assert HeaderFits(img);
    assert Fixups(img) == Some([]);
    PackedFacts(img);
    assert Entries(img.segments) == [EntryOf(img.segments[0])];
    assert [EntryOf(img.segments[0])][1..] == [];
    assert |Body(PackedSegments(img))| == 0;
  }

  /** Subsystem 266 passes the emitter's checks, because only its low eight bits are kept, but scans as 10. */
  lemma WideSubsystemFails()
    ensures var img := ZeroPage(266, None);
            && Emittable(img) && FileBytes(img, 0).Some?
            && ScanUe(FileBytes(img, 0).value).Some?
            && ScanUe(FileBytes(img, 0).value).value.header.subsystem == 10
            && !Compare(ScanUe(FileBytes(img, 0).value).value, img)
  {
    hide Checked, FileBytes, ScanUe, Emittable, Compare, ScannedSegments;
    var img := ZeroPage(266, None);
    ZeroPageEmits(266, None);
    EmittedScans(img, 0, FileBytes(img, 0).value);
    EmittedValidates(img, 0, FileBytes(img, 0).value);
  }

  /** An empty symbols path is emitted as a debug table, but the loader reports it as missing. */
  lemma EmptyPathFails()
    ensures var img := ZeroPage(10, Some([]));
            && Emittable(img) && FileBytes(img, 0).Some?
            && ScanUe(FileBytes(img, 0).value).Some?
            && ScanUe(FileBytes(img, 0).value).value.symbolsPath == None
            && !Compare(ScanUe(FileBytes(img, 0).value).value, img)
  {
    hide Checked, FileBytes, ScanUe, Emittable, Compare, ScannedSegments;
    var img := ZeroPage(10, Some([]));
    ZeroPageEmits(10, Some([]));
    EmittedScans(img, 0, FileBytes(img, 0).value);
    EmittedValidates(img, 0, FileBytes(img, 0).value);
  }
}
