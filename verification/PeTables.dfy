/** The resource and debug tables of a PE file (PeEmit.c, BinEmit.c), and reading the symbols path back (PeCoffDebug.c). */
module PeTables {
  import opened Bytes

  // ---------------------------------------------------------------- resources

  const HII_HEADER_SIZE := 112
  const HIGH_BIT := 0x8000_0000

  /** One resource directory with one named entry: the offset of its name, and of a directory or a data entry. */
  function ResourceDirectory(name: nat, data: nat): (d: seq<byte>)
    ensures |d| == 24
  {
    Zeros(12) + ToLe(1, 2) + Zeros(2) + ToLe(HIGH_BIT + name, 4) + ToLe(data, 4)
  }

  function ResourceString(x: byte, y: byte, z: byte): (s: seq<byte>)
    ensures |s| == 8
  {
    ToLe(3, 2) + [x, 0, y, 0, z, 0]
  }

  /** The directories for type, name and language, and their names: HII, EFI, BIN. */
  function HiiDirectories(): (d: seq<byte>)
    ensures |d| == 96
  {
    ResourceDirectory(72, HIGH_BIT + 24) + ResourceDirectory(80, HIGH_BIT + 48) + ResourceDirectory(88, 96)
    + ResourceString(0x48, 0x49, 0x49) + ResourceString(0x45, 0x46, 0x49) + ResourceString(0x42, 0x49, 0x4E)
  }

  /** InitializeHiiResouceSectionHeader for data at `address` plus the size of the header. */
  function HiiHeader(address: nat, size: nat): (t: seq<byte>)
    ensures |t| == HII_HEADER_SIZE
  {
    HiiDirectories() + ToLe(address + HII_HEADER_SIZE, 4) + ToLe(size, 4) + Zeros(8)
  }

  /** The resource section. The header is written before the section has its address, so that is still zero. */
  function HiiTable(data: seq<byte>): (t: seq<byte>)
    ensures |t| == HII_HEADER_SIZE + |data|
  {
    HiiHeader(0, |data|) + data
  }

  lemma Le2(v: nat)
    ensures ToLe(v, 2) == [v % 256, v / 256 % 256]
  {
    assert ToLe(v / 256, 1) == [v / 256 % 256];
  }

  lemma Le4(v: nat)
    ensures ToLe(v, 4) == [v % 256, v / 256 % 256, v / 0x1_0000 % 256, v / 0x100_0000 % 256]
  {
    Le2(v / 0x1_0000);
    assert v / 256 / 256 == v / 0x1_0000 && v / 0x1_0000 / 256 == v / 0x100_0000;
    assert ToLe(v / 256, 3) == [v / 256 % 256] + ToLe(v / 0x1_0000, 2);
  }

  lemma DirectoryBytes(name: byte, data: byte, high: byte)
    requires high == 0 || high == 0x80
    ensures ResourceDirectory(name, data + high * 0x100_0000)
            == [0, 0, 0, 0, 0, 0, 0, 0, 0, 0, 0, 0, 1, 0, 0, 0, name, 0, 0, 0x80, data, 0, 0, high]
  {
    hide ToLe;
    Le2(1);
    Le4(HIGH_BIT + name);
    Le4(data + high * 0x100_0000);
  }

  lemma StringBytes(x: byte, y: byte, z: byte)
    ensures ResourceString(x, y, z) == [3, 0, x, 0, y, 0, z, 0]
  {
    Le2(3);
  }

  /** The header byte for byte: three directories of one named entry each, three names, one data entry. */
  lemma HiiBytes(size: nat)
    ensures HiiHeader(0, size)
            == [0, 0, 0, 0, 0, 0, 0, 0, 0, 0, 0, 0, 1, 0, 0, 0, 72, 0, 0, 0x80, 24, 0, 0, 0x80]
               + [0, 0, 0, 0, 0, 0, 0, 0, 0, 0, 0, 0, 1, 0, 0, 0, 80, 0, 0, 0x80, 48, 0, 0, 0x80]
               + [0, 0, 0, 0, 0, 0, 0, 0, 0, 0, 0, 0, 1, 0, 0, 0, 88, 0, 0, 0x80, 96, 0, 0, 0]
               + [3, 0, 'H' as int, 0, 'I' as int, 0, 'I' as int, 0]
               + [3, 0, 'E' as int, 0, 'F' as int, 0, 'I' as int, 0]
               + [3, 0, 'B' as int, 0, 'I' as int, 0, 'N' as int, 0]
               + [112, 0, 0, 0] + ToLe(size, 4) + Zeros(8)
  {
    hide ToLe, ResourceDirectory, ResourceString;
    DirectoryBytes(72, 24, 0x80);
    DirectoryBytes(80, 48, 0x80);
    DirectoryBytes(88, 96, 0);
    StringBytes(0x48, 0x49, 0x49);
    StringBytes(0x45, 0x46, 0x49);
    StringBytes(0x42, 0x49, 0x4E);
    Le4(112);
  }

  // ---------------------------------------------------------------- debug information

  const DEBUG_ENTRY_SIZE := 28
  const NB10_SIZE := 16
  const DEBUG_HEADER_SIZE := DEBUG_ENTRY_SIZE + NB10_SIZE
  const TYPE_CODEVIEW := 2
  const NB10: seq<byte> := [0x4E, 0x42, 0x31, 0x30]

  /** The directory entry and the head of the NB10 record it describes, for a table at `address` and offset `pointer`. */
  function DebugHeader(address: nat, pointer: nat, pathSize: nat): (t: seq<byte>)
    ensures |t| == DEBUG_HEADER_SIZE
  {
    Zeros(12) + ToLe(TYPE_CODEVIEW, 4) + ToLe(NB10_SIZE + pathSize, 4)
    + ToLe(address + DEBUG_ENTRY_SIZE, 4) + ToLe(pointer + DEBUG_ENTRY_SIZE, 4) + (NB10 + Zeros(12))
  }

  /** The debug section of a file that is its own image. */
  function CodeViewTable(path: seq<byte>, address: nat): (t: seq<byte>)
    ensures |t| == DEBUG_HEADER_SIZE + |path| + 1
  {
    DebugHeader(address, address, |path| + 1) + (path + [0])
  }

  datatype Lookup = NotFound | Corrupted | Found(path: seq<byte>)

  /** The codeview record at offset `at`: a known signature, its header, and a name that ends with a zero. */
  function ReadCodeView(m: seq<byte>, at: nat, size: nat): (r: Lookup)
    requires 4 <= size && at + size <= |m|
  {
    var signature := m[at..at + 4];
    // RSDS and MTOC records carry a GUID in addition.
    var skip := if signature == NB10 then 16 else if signature == RSDS then 24 else if signature == MTOC then 20 else 0;
    if skip == 0 then NotFound
    else if size <= skip || m[at + size - 1] != 0 then Corrupted
    else Found(m[at + skip..at + size - 1])
  }

  const RSDS: seq<byte> := [0x52, 0x53, 0x44, 0x53]
  const MTOC: seq<byte> := [0x4D, 0x54, 0x4F, 0x43]

  /** The first codeview entry among n directory entries. */
  function FirstCodeView(m: seq<byte>, rva: nat, n: nat): (i: nat)
    requires rva + DEBUG_ENTRY_SIZE * n <= |m|
    ensures i <= n
    decreases n
  {
    if n == 0 then 0
    else if Load(m, rva + 12, 4) == TYPE_CODEVIEW then 0
    else 1 + FirstCodeView(m, rva + DEBUG_ENTRY_SIZE, n - 1)
  }

  /** PeCoffGetPdbPath on a file that is its own image, as the tool uses it: an unsupported record counts as none. */
  function ReadPath(m: seq<byte>, rva: nat, size: nat): (r: Lookup) {
    if size == 0 then NotFound
    else if size % DEBUG_ENTRY_SIZE != 0 || rva + size >= TWO_32 || rva + size > |m| || rva % 4 != 0 then Corrupted
    else
      var n := size / DEBUG_ENTRY_SIZE;
      var i := FirstCodeView(m, rva, n);
      if i == n then NotFound
      else
        var entry := rva + DEBUG_ENTRY_SIZE * i;
        var length, at := Load(m, entry + 16, 4), Load(m, entry + 24, 4);
        if length < 4 || at + length >= TWO_32 || at + length > |m| || at % 4 != 0 then Corrupted
        else ReadCodeView(m, at, length)
  }
}
