/** What the decoders of PE relocation and debug directories accept, stated on the blocks and records themselves. */
module PeDirectory {
  import opened Bytes
  import opened Image
  import opened PeTables
  import opened PeRelocs

  /** A block as it lies in memory. */
  datatype PeBlock = PeBlock(page: nat, size: nat, entries: seq<uint16>)

  ghost predicate BlockAt(m: seq<byte>, rva: nat, end: nat, b: PeBlock)
    requires end <= |m|
  {
    && rva + 8 <= end && 8 <= b.size <= end - rva
    && Load(m, rva, 4) == b.page && Load(m, rva + 4, 4) == b.size
    && |b.entries| == (b.size - 8) / 2 && EntriesAre(m, rva + 8, b.entries)
  }

  ghost predicate EntriesAre(m: seq<byte>, at: nat, entries: seq<uint16>)
    requires at + 2 * |entries| <= |m|
  {
    forall k :: 0 <= k < |entries| ==> EntryIs(m, at, entries, k)
  }

  ghost predicate EntryIs(m: seq<byte>, at: nat, entries: seq<uint16>, k: nat)
    requires k < |entries| && at + 2 * |entries| <= |m|
  {
    Load(m, at + 2 * k, 2) == entries[k]
  }

  /** The blocks follow each other, each at a multiple of four, and the last one ends where the directory does. */
  ghost predicate BlocksAt(m: seq<byte>, rva: nat, end: nat, blocks: seq<PeBlock>)
    requires end <= |m|
    decreases |blocks|
  {
    if blocks == [] then rva == AlignUp(end, 4)
    else BlockAt(m, rva, end, blocks[0]) && BlocksAt(m, rva + AlignUp(blocks[0].size, 4), end, blocks[1..])
  }

  /** An entry is padding, a 32-bit or a 64-bit relocation. */
  predicate KnownEntry(e: nat) { e / 0x1000 in {0, 3, 10} }

  predicate KnownEntries(entries: seq<uint16>) {
    forall k :: 0 <= k < |entries| ==> KnownEntry(entries[k])
  }

  predicate KnownBlocks(blocks: seq<PeBlock>) {
    forall k :: 0 <= k < |blocks| ==> KnownEntries(blocks[k].entries)
  }

  /** The relocations of a block: all entries but padding, relative to the page. */
  function EntryRelocs(entries: seq<uint16>, page: nat): (rs: seq<Reloc>)
  {
    if entries == [] then []
    else
      var e := entries[|entries| - 1];
      EntryRelocs(entries[..|entries| - 1], page)
      + if e / 0x1000 == 0 then [] else [Reloc(e / 0x1000, (page + e % 0x1000) % TWO_32)]
  }

  function BlockRelocs(blocks: seq<PeBlock>): (rs: seq<Reloc>)
  {
    if blocks == [] then [] else EntryRelocs(blocks[0].entries, blocks[0].page) + BlockRelocs(blocks[1..])
  }

  // ---------------------------------------------------------------- one block

  /** The entries at an address. */
  function EntriesAt(m: seq<byte>, at: nat, n: nat): (es: seq<uint16>)
    requires at + 2 * n <= |m|
    ensures |es| == n && forall k :: 0 <= k < n ==> es[k] == Load(m, at + 2 * k, 2)
  {
    Pow256Values();
    seq(n, k requires 0 <= k < n => Load(m, at + 2 * k, 2))
  }

  lemma {:induction false} EntriesDecode(m: seq<byte>, at: nat, n: nat, page: nat)
    requires at + 2 * n <= |m|
    ensures var es := EntriesAt(m, at, n);
            ScanEntries(m, at, n, page) == if KnownEntries(es) then Some(EntryRelocs(es, page)) else None
  {
    hide Load;
    if n > 0 {
      EntriesDecode(m, at, n - 1, page);
      var es := EntriesAt(m, at, n);
      assert es[..n - 1] == EntriesAt(m, at, n - 1);
      ScanEntriesStep(m, at, n - 1, page);
      assert KnownEntries(es) <==> KnownEntries(es[..n - 1]) && KnownEntry(es[n - 1]);
    }
  }

  lemma BlockDecodes(m: seq<byte>, rva: nat, end: nat, b: PeBlock)
    requires end <= |m| && BlockAt(m, rva, end, b)
    ensures b.entries == EntriesAt(m, rva + 8, (b.size - 8) / 2)
  {
    hide Load;
    var at := rva + 8;
    forall k | 0 <= k < |b.entries| ensures b.entries[k] == EntriesAt(m, at, (b.size - 8) / 2)[k] {
      assert EntryIs(m, at, b.entries, k);
    }
  }

  lemma AtEntries(m: seq<byte>, at: nat, n: nat)
    requires at + 2 * n <= |m|
    ensures EntriesAre(m, at, EntriesAt(m, at, n))
  {
    hide Load;
  }

  // ---------------------------------------------------------------- the directory

  /** Known blocks are decoded to their relocations. */
  lemma {:induction false} BlocksDecode(m: seq<byte>, rva: nat, end: nat, found: seq<Reloc>, blocks: seq<PeBlock>)
    requires 8 <= end <= |m| && rva % 4 == 0 && rva <= AlignUp(end, 4)
    requires BlocksAt(m, rva, end, blocks) && KnownBlocks(blocks)
    ensures ScanBlocks(m, rva, end - 8, found) == Some((found + BlockRelocs(blocks), AlignUp(end, 4)))
    decreases |blocks|
  {
    hide ScanEntries, Load, EntryRelocs, AlignUp, ScanBlocks, KnownEntries;
    if blocks == [] {
      WalkEnds(m, rva, end - 8, found);
      assert found + [] == found;
    } else {
      var b := blocks[0];
      BlockDecodes(m, rva, end, b);
      ScanBlocksStep(m, rva, end - 8, found);
      EntriesDecode(m, rva + 8, (b.size - 8) / 2, b.page);
      var rs := EntryRelocs(b.entries, b.page);
      BlocksDecode(m, rva + AlignUp(b.size, 4), end, found + rs, blocks[1..]);
      assert found + rs + BlockRelocs(blocks[1..]) == found + BlockRelocs(blocks);
    }
  }

  /** What is decoded to the end of the directory are known blocks. */
  lemma {:induction false} DecodedBlocks(m: seq<byte>, rva: nat, end: nat, found: seq<Reloc>) returns (blocks: seq<PeBlock>)
    requires 8 <= end <= |m| && rva % 4 == 0 && rva <= AlignUp(end, 4)
    requires ScanBlocks(m, rva, end - 8, found).Some? && ScanBlocks(m, rva, end - 8, found).value.1 == AlignUp(end, 4)
    ensures BlocksAt(m, rva, end, blocks) && KnownBlocks(blocks)
    decreases AlignUp(end, 4) - rva
  {
    hide ScanEntries, Load, EntryRelocs, AlignUp, ScanBlocks, KnownEntries;
    if rva > end - 8 {
      WalkEnds(m, rva, end - 8, found);
      blocks := [];
    } else {
      ScanBlocksStep(m, rva, end - 8, found);
      var size, page := Load(m, rva + 4, 4), Load(m, rva, 4);
      var es := EntriesAt(m, rva + 8, (size - 8) / 2);
      EntriesDecode(m, rva + 8, (size - 8) / 2, page);
      var rest := DecodedBlocks(m, rva + AlignUp(size, 4), end, found + EntryRelocs(es, page));
      var b := PeBlock(page, size, es);
      AtEntries(m, rva + 8, (size - 8) / 2);
      blocks := [b] + rest;
      assert blocks[1..] == rest;
    }
  }

  /** The directory is made of these blocks. */
  ghost predicate MadeOf(m: seq<byte>, rva: nat, size: nat, blocks: seq<PeBlock>, relocs: seq<Reloc>)
    requires rva + size <= |m|
  {
    BlocksAt(m, rva, rva + size, blocks) && KnownBlocks(blocks) && relocs == BlockRelocs(blocks)
  }

  /**
   * A directory that is not empty decodes to a list exactly if that list, and four bytes for every entry's two, fit 32
   * bits, and the directory is a sequence of blocks of known entries that describe the list and end where it ends.
   */
  lemma DirectoryDecodes(m: seq<byte>, rva: nat, size: nat, relocs: seq<Reloc>)
    requires Directory(m, rva, size) && size > 0
    ensures ScanPe(m, rva, size) == Some(relocs) <==>
              && 4 * size < TWO_32 && AlignUp(rva + size, 4) < TWO_32
              && exists blocks :: MadeOf(m, rva, size, blocks, relocs)
  {
    hide ScanBlocks, AlignUp, BlocksAt, KnownBlocks, BlockRelocs;
    var end := rva + size;
    assert rva <= AlignUp(end, 4);
    if blocks :| MadeOf(m, rva, size, blocks, relocs) {
      BlocksDecode(m, rva, end, [], blocks);
      assert [] + BlockRelocs(blocks) == relocs;
    }
    if ScanPe(m, rva, size) == Some(relocs) {
      var blocks := DecodedBlocks(m, rva, end, []);
      BlocksDecode(m, rva, end, [], blocks);
      assert [] + BlockRelocs(blocks) == BlockRelocs(blocks);
      assert MadeOf(m, rva, size, blocks, relocs);
    }
  }

  // ---------------------------------------------------------------- the debug directory

  /** Entry i of the directory is the first one of type 2, codeview. */
  ghost predicate CodeViewEntry(m: seq<byte>, rva: nat, i: nat)
    requires rva + 28 * (i + 1) <= |m|
  {
    Load(m, rva + 28 * i + 12, 4) == 2 && forall j :: 0 <= j < i ==> OtherEntry(m, rva, j)
  }

  ghost predicate OtherEntry(m: seq<byte>, rva: nat, j: nat)
    requires rva + 28 * (j + 1) <= |m|
  {
    Load(m, rva + 28 * j + 12, 4) != 2
  }

  ghost predicate NoCodeView(m: seq<byte>, rva: nat, n: nat)
    requires rva + 28 * n <= |m|
  {
    forall j :: 0 <= j < n ==> OtherEntry(m, rva, j)
  }

  lemma {:induction false} FirstIs(m: seq<byte>, rva: nat, n: nat)
    requires rva + 28 * n <= |m|
    ensures FirstCodeView(m, rva, n) == n <==> NoCodeView(m, rva, n)
    ensures FirstCodeView(m, rva, n) < n ==> CodeViewEntry(m, rva, FirstCodeView(m, rva, n))
    decreases n
  {
    hide Load;
    if n > 0 {
      if Load(m, rva + 12, 4) == 2 {
        assert !OtherEntry(m, rva, 0);
      } else {
        var next := rva + 28;
        FirstIs(m, next, n - 1);
        var i := FirstCodeView(m, next, n - 1);
        forall j: nat | j < n && j <= i ensures OtherEntry(m, rva, j) <==> (j == 0 || OtherEntry(m, next, j - 1)) {
        }
        if i < n - 1 {
          assert !OtherEntry(m, next, i);
          assert !OtherEntry(m, rva, i + 1);
        }
      }
    }
  }

  lemma FirstOnly(m: seq<byte>, rva: nat, n: nat, i: nat)
    requires rva + 28 * n <= |m| && i < n && CodeViewEntry(m, rva, i)
    ensures FirstCodeView(m, rva, n) == i
  {
    hide Load;
    FirstIs(m, rva, n);
    var k := FirstCodeView(m, rva, n);
    assert k == n || i < k ==> OtherEntry(m, rva, i);
    assert k < i ==> OtherEntry(m, rva, k);
  }

  /** The head of a record with the given signature: NB10, RSDS or MTOC. */
  ghost predicate RecordHead(signature: seq<byte>, size: nat) {
    || (signature == [0x4E, 0x42, 0x31, 0x30] && size == 16)
    || (signature == [0x52, 0x53, 0x44, 0x53] && size == 24)
    || (signature == [0x4D, 0x54, 0x4F, 0x43] && size == 20)
  }

  ghost predicate UnknownKind(signature: seq<byte>) { forall size: nat :: !RecordHead(signature, size) }

  /** An aligned record of a known kind whose head is followed by the path and a zero. */
  ghost predicate PathRecord(m: seq<byte>, at: nat, size: nat, path: seq<byte>) {
    && at % 4 == 0 && 4 <= size && at + size <= |m| && at + size < TWO_32
    && exists skip: nat :: RecordHead(m[at..at + 4], skip) && skip + |path| + 1 == size && HoldsPath(m, at, skip, path)
  }

  ghost predicate HoldsPath(m: seq<byte>, at: nat, skip: nat, path: seq<byte>)
    requires at + skip + |path| + 1 <= |m|
  {
    m[at + skip..at + skip + |path| + 1] == path + [0]
  }

  /** The first codeview entry gives the record: its size is at byte 16 of the entry, its file offset at byte 24. */
  ghost predicate PathEntry(m: seq<byte>, rva: nat, n: nat, i: nat, path: seq<byte>)
    requires rva + 28 * n <= |m|
  {
    i < n && CodeViewEntry(m, rva, i) && PathRecord(m, Load(m, rva + 28 * i + 24, 4), Load(m, rva + 28 * i + 16, 4), path)
  }

  ghost predicate DebugDirectory(m: seq<byte>, rva: nat, size: nat) {
    size % 28 == 0 && rva % 4 == 0 && rva + size <= |m| && rva + size < TWO_32
  }

  lemma HeldPath(m: seq<byte>, at: nat, skip: nat, path: seq<byte>)
    requires at + skip + |path| + 1 <= |m| && HoldsPath(m, at, skip, path)
    ensures m[at + skip + |path|] == 0 && m[at + skip..at + skip + |path|] == path
  {
    var s := m[at + skip..at + skip + |path| + 1];
    assert s[|path|] == 0;
    assert m[at + skip..at + skip + |path|] == s[..|path|];
  }

  lemma RecordRead(m: seq<byte>, at: nat, size: nat, path: seq<byte>)
    requires 4 <= size && at + size <= |m| && at + size < TWO_32 && at % 4 == 0
    ensures ReadCodeView(m, at, size) == Found(path) <==> PathRecord(m, at, size, path)
    ensures ReadCodeView(m, at, size) == NotFound <==> UnknownKind(m[at..at + 4])
  {
    var signature := m[at..at + 4];
    if skip: nat :| RecordHead(signature, skip) {
      if PathRecord(m, at, size, path) {
        HeldPath(m, at, skip, path);
      }
      if ReadCodeView(m, at, size) == Found(path) {
        assert m[at + skip..at + skip + |path| + 1] == path + [0];
        assert HoldsPath(m, at, skip, path);
      }
    } else {
      assert !RecordHead(signature, 16) && !RecordHead(signature, 24) && !RecordHead(signature, 20);
    }
  }

  /**
   * The symbols path of a debug directory: one is found exactly if the first codeview entry of a well-formed directory
   * points to a record that ends with that path and a zero, and none if there is no such entry or its record is of
   * another kind; everything else is corrupted.
   */
  lemma PathFound(m: seq<byte>, rva: nat, size: nat, path: seq<byte>)
    requires size > 0
    ensures ReadPath(m, rva, size) == Found(path) <==>
              DebugDirectory(m, rva, size) && exists i :: PathEntry(m, rva, size / 28, i, path)
    ensures ReadPath(m, rva, size) == NotFound <==>
              DebugDirectory(m, rva, size) && (NoCodeView(m, rva, size / 28) || exists i :: OtherRecord(m, rva, size / 28, i))
  {
    hide Load, ReadCodeView, FirstCodeView, CodeViewEntry, NoCodeView, PathRecord, UnknownKind;
    if DebugDirectory(m, rva, size) {
      var n := size / 28;
      assert size == 28 * n;
      FirstIs(m, rva, n);
      var i := FirstCodeView(m, rva, n);
      forall k | 0 <= k < n && CodeViewEntry(m, rva, k) ensures k == i {
        FirstOnly(m, rva, n, k);
      }
      if i < n {
        EntryRead(m, rva, n, i, path);
      } else {
        assert !exists k :: PathEntry(m, rva, n, k, path);
      }
    }
  }

  /** The first codeview entry points to an aligned record of an unknown kind. */
  ghost predicate OtherRecord(m: seq<byte>, rva: nat, n: nat, i: nat)
    requires rva + 28 * n <= |m|
  {
    && i < n && CodeViewEntry(m, rva, i)
    && var at, size := Load(m, rva + 28 * i + 24, 4), Load(m, rva + 28 * i + 16, 4);
    && at % 4 == 0 && 4 <= size && at + size <= |m| && at + size < TWO_32
    && UnknownKind(m[at..at + 4])
  }

  lemma EntryRead(m: seq<byte>, rva: nat, n: nat, i: nat, path: seq<byte>)
    requires rva + 28 * n <= |m| && i < n && CodeViewEntry(m, rva, i) && n > 0 && DebugDirectory(m, rva, 28 * n)
    ensures ReadPath(m, rva, 28 * n) == Found(path) <==> PathEntry(m, rva, n, i, path)
    ensures ReadPath(m, rva, 28 * n) == NotFound <==> OtherRecord(m, rva, n, i)
  {
    hide Load, ReadCodeView, FirstCodeView, CodeViewEntry, NoCodeView, PathRecord, UnknownKind;
    FirstOnly(m, rva, n, i);
    assert 28 * n / 28 == n;
    var at, size := Load(m, rva + 28 * i + 24, 4), Load(m, rva + 28 * i + 16, 4);
    if 4 <= size && at + size <= |m| && at + size < TWO_32 && at % 4 == 0 {
      RecordRead(m, at, size, path);
    } else {
      NoRecord(m, at, size, path);
    }
  }

  lemma NoRecord(m: seq<byte>, at: nat, size: nat, path: seq<byte>)
    requires !(4 <= size && at + size <= |m| && at + size < TWO_32 && at % 4 == 0)
    ensures !PathRecord(m, at, size, path)
  {
  }
}
