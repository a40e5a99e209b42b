/** Loading a UE file and rebuilding the intermediate representation (UeImageLib.c, UeScan.c, UefiImageScan.c). */
module UeLoad {
  import opened Bytes
  import opened Image
  import opened UeScan
  import opened UeBody
  import opened UeFormat
  import opened UeFile

  // ---------------------------------------------------------------- segments

  function EntrySegment(e: Entry, stored: seq<byte>, address: uint32): (s: Segment)
    requires |stored| <= e.size
    ensures s.address == address && |s.data| == e.size && !(s.write && s.execute)
  {
    var p := e.permissions;
    Segment(address, Padded(stored, e.size), p != 0, p == 2, p == 0 || p == 1, None, 0)
  }

  /** UeLoadImage and ScanUeGetSegmentInfo: sizes add up to addresses, stored bytes follow each other in the file. */
  function LoadEntries(es: seq<Entry>, bytes: seq<byte>, alignment: nat, address: uint32): (segs: seq<Segment>)
    requires VerifyEntries(es, alignment, address).Some? && StoredSize(es) <= |bytes|
    ensures |segs| == |es|
    decreases |es|
  {
    if es == [] then []
    else
      var e := es[0];
      [EntrySegment(e, bytes[..e.fileSize], address)]
      + LoadEntries(es[1..], bytes[e.fileSize..], alignment, address + e.size)
  }

  /** The segments follow each other from the given address on, each a multiple of the alignment. */
  ghost predicate Tiled(segs: seq<Segment>, alignment: nat, address: nat) {
    if segs == [] then true
    else
      && segs[0].address == address
      && Aligned(|segs[0].data|, alignment)
      && !(segs[0].write && segs[0].execute)
      && segs[0].End() < TWO_32
      && Tiled(segs[1..], alignment, segs[0].End())
  }

  lemma {:induction false} LoadTiled(es: seq<Entry>, bytes: seq<byte>, alignment: nat, address: uint32)
    requires VerifyEntries(es, alignment, address).Some? && StoredSize(es) <= |bytes|
    ensures Tiled(LoadEntries(es, bytes, alignment, address), alignment, address)
    ensures es != [] ==>
      ImageSize(LoadEntries(es, bytes, alignment, address)) == VerifyEntries(es, alignment, address).value
    decreases |es|
  {
    if es != [] {
      var e := es[0];
      LoadTiled(es[1..], bytes[e.fileSize..], alignment, address + e.size);
    }
  }

  lemma {:induction false} TiledAt(segs: seq<Segment>, alignment: nat, address: nat, i: nat)
    requires Tiled(segs, alignment, address) && i < |segs|
    ensures CheckedSegment(segs, alignment, i)
    decreases i
  {
    if i > 0 {
      TiledAt(segs[1..], alignment, segs[0].End(), i - 1);
    }
  }

  lemma TiledChecked(segs: seq<Segment>, alignment: nat)
    requires Tiled(segs, alignment, 0) && segs != [] && IsPow2(alignment)
    ensures CheckedSegments(segs, alignment)
  {
    forall i | 0 <= i < |segs| ensures CheckedSegment(segs, alignment, i) {
      TiledAt(segs, alignment, 0, i);
    }
  }

  lemma PageAligned(x: nat, alignment: nat)
    requires Aligned(x, alignment) && Aligned(alignment, PAGE_SIZE)
    ensures Aligned(x, PAGE_SIZE)
  {
    var q, k := x / alignment, alignment / PAGE_SIZE;
    assert x == PAGE_SIZE * (k * q);
  }

  /** Segments checked for a larger alignment are loadable. */
  lemma CheckedLoadable(segs: seq<Segment>, alignment: nat)
    requires CheckedSegments(segs, alignment) && alignment % PAGE_SIZE == 0 && segs[0].address == 0
    ensures Loadable(segs)
  {
    assert Aligned(0, PAGE_SIZE);
    assert IsPow2(PAGE_SIZE) by {
      Pow2Values();
    }
    assert Aligned(alignment, PAGE_SIZE);
    hide IsPow2, Aligned;
    forall i | 0 <= i < |segs| ensures CheckedSegment(segs, PAGE_SIZE, i) {
      assert CheckedSegment(segs, alignment, i);
      PageAligned(|segs[i].data|, alignment);
    }
  }

  // ---------------------------------------------------------------- the debug table

  /** InternalGetDebugTable: position and size of the debug table. */
  function FindDebug(infos: seq<nat>, at: nat): (d: Option<(nat, nat)>) {
    if infos == [] then None
    else if TableId(infos[0]) == TABLE_DEBUG then Some((at, TableSize(infos[0])))
    else FindDebug(infos[1..], at + TableSize(infos[0]))
  }

  lemma {:induction false} FindDebugBounds(infos: seq<nat>, prevId: int, at: nat)
    requires VerifyTables(infos, prevId, at).Some? && FindDebug(infos, at).Some?
    ensures var d := FindDebug(infos, at).value; at <= d.0 && d.0 + d.1 <= VerifyTables(infos, prevId, at).value
    decreases |infos|
  {
    if TableId(infos[0]) != TABLE_DEBUG {
      FindDebugBounds(infos[1..], TableId(infos[0]), at + TableSize(infos[0]));
    }
  }

  function CString(bytes: seq<byte>): (s: seq<byte>)
    ensures s <= bytes
  {
    if bytes == [] || bytes[0] == 0 then [] else [bytes[0]] + CString(bytes[1..])
  }

  lemma {:induction false} CStringZero(bytes: seq<byte>)
    ensures 0 !in CString(bytes) && (|CString(bytes)| < |bytes| ==> bytes[|CString(bytes)|] == 0)
    decreases bytes
  {
    if bytes != [] && bytes[0] != 0 {
      CStringZero(bytes[1..]);
    }
  }

  function WithNames(segs: seq<Segment>, fields: seq<byte>): (t: seq<Segment>)
    requires |fields| == 8 * |segs|
    ensures |t| == |segs|
    ensures forall i :: 0 <= i < |t| ==> t[i] == segs[i].(name := t[i].name)
  {
    if segs == [] then []
    else [segs[0].(name := Some(CString(fields[..8])))] + WithNames(segs[1..], fields[8..])
  }

  /** The debug table is long enough for the path and names it announces. */
  predicate DebugFits(file: seq<byte>, at: nat, size: nat, numSegments: nat)
    requires at + size <= |file|
  {
    size >= 3 && file[at + 1] + 8 * numSegments <= size - 3
  }

  // ---------------------------------------------------------------- the whole image

  function RelocTableSize(c: Context): nat {
    if c.tables != [] && TableId(c.tables[0]) == TABLE_RELOC then TableSize(c.tables[0]) else 0
  }

  lemma WithNamesLoadable(segs: seq<Segment>, fields: seq<byte>)
    requires Loadable(segs) && |fields| == 8 * |segs|
    ensures Loadable(WithNames(segs, fields))
  {
    var t := WithNames(segs, fields);
    forall i | 0 <= i < |t| ensures CheckedSegment(t, PAGE_SIZE, i) {
      assert CheckedSegment(segs, PAGE_SIZE, i);
    }
  }

  /** The segments before relocation chains are undone, with the names of the debug table if there is one. */
  function LoadSegments(file: seq<byte>, c: Context): (segs: Option<seq<Segment>>)
    requires ParseContext(file) == Some(c)
    ensures segs.Some? ==> Loadable(segs.value) && |segs.value| == |c.entries|
  {
    var loaded := LoadEntries(c.entries, file[c.bodyAt..], c.alignment, 0);
    LoadTiled(c.entries, file[c.bodyAt..], c.alignment, 0);
    TiledChecked(loaded, c.alignment);
    CheckedLoadable(loaded, c.alignment);
    var d := FindDebug(c.tables, c.loadAt);
    if d.None? then Some(loaded)
    else
      FindDebugBounds(c.tables, -1, c.loadAt);
      var (at, size) := d.value;
      if !DebugFits(file, at, size, |c.entries|) then None
      else
        var names := at + file[at + 1] + 3;
        WithNamesLoadable(loaded, file[names..names + 8 * |loaded|]);
        Some(WithNames(loaded, file[names..names + 8 * |loaded|]))
  }

  /** UeGetSymbolsPath: a debug table with an empty path counts as having none; None overall reports corruption. */
  function LoadSymbolsPath(file: seq<byte>, c: Context): (p: Option<Option<seq<byte>>>)
    requires ParseContext(file) == Some(c)
  {
    var d := FindDebug(c.tables, c.loadAt);
    if d.None? then Some(None)
    else
      FindDebugBounds(c.tables, -1, c.loadAt);
      var (at, size) := d.value;
      if !DebugFits(file, at, size, |c.entries|) then None
      else if file[at + 1] == 0 then Some(None)
      else if file[at + 2 + file[at + 1]] != 0 then None
      else Some(Some(file[at + 2..at + 2 + file[at + 1]]))
  }

  /** ToolContextConstructUefiImage on a UE file. */
  function ScanUe(file: seq<byte>): (img: Option<Image>) {
    var pc := ParseContext(file);
    if pc.None? then None
    else
      var c := pc.value;
      var segs, path, tableSize := LoadSegments(file, c), LoadSymbolsPath(file, c), RelocTableSize(c);
      if segs.None? || path.None? || (c.tables != [] && TableId(c.tables[0]) == TABLE_RELOC && c.relocsStripped) then None
      else
        var r := if tableSize == 0 then Some(State([], segs.value, 0))
                 else ScanRelocs(file[c.loadAt..c.loadAt + tableSize], segs.value, c.chained);
        if r.None? then None
        else Some(Image(c.header, c.alignment, r.value.segs, c.relocsStripped, r.value.relocs, [], path.value))
  }
}
