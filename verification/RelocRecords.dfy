/** The buffer in which the UE decoder collects relocations, eight bytes each (UeScan.c, ImageTool.h). */
module RelocRecords {
  import opened Bytes
  import opened DynamicBuffer
  import opened Image

  const RECORD_SIZE := 8

  /** As many records as fit the largest capacity the buffer can reach. */
  const MAX_RELOCS := (TWO_32 - GROWTH) / RECORD_SIZE

  lemma LargestCount()
    ensures MAX_RELOCS == 0x1FFF_FE00
  {
  }

  /** image_tool_reloc_t: type, three reserved bytes, target. */
  function Record(r: Reloc): (bytes: seq<byte>)
    ensures |bytes| == RECORD_SIZE
  {
    [r.ty, 0, 0, 0] + ToLe(r.target, 4)
  }

  function Records(rs: seq<Reloc>): (bytes: seq<byte>)
    ensures |bytes| == RECORD_SIZE * |rs|
  {
    if rs == [] then [] else Records(rs[..|rs| - 1]) + Record(rs[|rs| - 1])
  }

  /** The records as a list again. */
  function FromRecords(bytes: seq<byte>, n: nat): (rs: seq<Reloc>)
    requires |bytes| == RECORD_SIZE * n
  {
    if n == 0 then []
    else
      Pow256Values();
      var k := RECORD_SIZE * (n - 1);
      FromRecords(bytes[..k], n - 1) + [Reloc(bytes[k], Load(bytes, k + 4, 4))]
  }

  lemma LastRecord(init: seq<byte>, r: Reloc)
    ensures var bytes := init + Record(r);
            bytes[..|init|] == init && bytes[|init|] == r.ty && Load(bytes, |init| + 4, 4) == r.target
  {
    hide ToLe, FromLe;
    Pow256Values();
    FromToLe(r.target, 4);
    assert (init + Record(r))[|init| + 4..|init| + 8] == ToLe(r.target, 4);
  }

  lemma {:induction false} RecordsComeBack(rs: seq<Reloc>)
    ensures FromRecords(Records(rs), |rs|) == rs
  {
    hide Record, Load;
    if rs != [] {
      var n := |rs| - 1;
      RecordsComeBack(rs[..n]);
      LastRecord(Records(rs[..n]), rs[n]);
      assert rs[..n] + [rs[n]] == rs;
    }
  }

  /** The buffer holds exactly these records, and has grown no further than they need. */
  ghost predicate Collects(b: Buffer, rs: seq<Reloc>)
    reads b, b.memory
  {
    b.Valid() && b.Contents() == Records(rs) && b.memory.Length == AlignUp(RECORD_SIZE * |rs|, GROWTH)
  }

  lemma CollectsFew(b: Buffer, rs: seq<Reloc>)
    requires Collects(b, rs)
    ensures |rs| <= MAX_RELOCS
  {
  }

  /** Room for one more record. */
  lemma RecordGrows(n: nat)
    requires RECORD_SIZE * n <= AlignUp(RECORD_SIZE * n, GROWTH) < TWO_32
    ensures Grown(AlignUp(RECORD_SIZE * n, GROWTH), RECORD_SIZE * n, RECORD_SIZE)
            == if n < MAX_RELOCS then Some(AlignUp(RECORD_SIZE * (n + 1), GROWTH)) else None
  {
    var q, r := RECORD_SIZE * n / GROWTH, RECORD_SIZE * n % GROWTH;
    assert r % RECORD_SIZE == 0;
    if r == 0 {
      DivModUnique(RECORD_SIZE * (n + 1), GROWTH, q, RECORD_SIZE);
    } else if r + RECORD_SIZE < GROWTH {
      DivModUnique(RECORD_SIZE * (n + 1), GROWTH, q, r + RECORD_SIZE);
    } else {
      DivModUnique(RECORD_SIZE * (n + 1), GROWTH, q + 1, 0);
    }
  }

  method NewRecords() returns (b: Buffer)
    ensures fresh(b) && fresh(b.memory) && Collects(b, [])
  {
    b := new Buffer();
    assert b.memory.Length == 0;
  }

  /** One record more; it fails exactly if the buffer is full. */
  method Push(b: Buffer, r: Reloc, ghost rs: seq<Reloc>) returns (ok: bool)
    requires Collects(b, rs)
    modifies b, b.memory
    ensures b.memory == old(b.memory) || fresh(b.memory)
    ensures ok <==> |rs| < MAX_RELOCS
    ensures ok ==> Collects(b, rs + [r])
  {
    hide Grown, AlignAddend, Record;
    RecordGrows(|rs|);
    assert (rs + [r])[..|rs|] == rs;
    var offset := b.Append(Record(r));
    ok := offset != MAX_UINT32;
  }

  /** ImageToolBufferDump, seen as the array of relocations it is. */
  method Dump(b: Buffer, ghost rs: seq<Reloc>) returns (relocs: seq<Reloc>)
    requires Collects(b, rs)
    ensures relocs == rs
  {
    RecordsComeBack(rs);
    relocs := FromRecords(b.memory[..b.dataSize], b.dataSize / RECORD_SIZE);
  }
}
