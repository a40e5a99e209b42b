/** The intermediate representation of an image and the memory its segments form (ImageTool.h, Image.c). */
module Image {
  import opened Bytes

  const REL_ABSOLUTE := 0
  const REL_HIGHLOW := 3
  const REL_DIR64 := 10

  datatype Header = Header(
    baseAddress: uint64,
    entryPoint: uint32,
    machine: uint16,
    subsystem: uint16,
    fixedAddress: bool
  )

  /** ImageSize is |data|; a name is the C string without its terminator. */
  datatype Segment = Segment(
    address: uint32,
    data: seq<byte>,
    read: bool,
    write: bool,
    execute: bool,
    name: Option<seq<byte>>,
    unpaddedSize: nat
  ) {
    function End(): nat { address + |data| }
  }

  datatype Reloc = Reloc(ty: byte, target: uint32) {
    function End(): nat { target + RelocSize(ty) }
  }

  datatype Image = Image(
    header: Header,
    alignment: uint32,
    segments: seq<Segment>,
    relocsStripped: bool,
    relocs: seq<Reloc>,
    hiiData: seq<byte>,
    symbolsPath: Option<seq<byte>>
  )

  /** ToolImageGetRelocSize; 0 reports an unknown type. */
  function RelocSize(ty: byte): nat {
    if ty == REL_HIGHLOW then 4 else if ty == REL_DIR64 then 8 else 0
  }

  // ---------------------------------------------------------------- segments as memory

  predicate InSegment(s: Segment, a: nat) { s.address <= a < s.End() }

  /** ImageGetSegmentByAddress: the index of the first segment holding a, or |segs|. */
  function Locate(segs: seq<Segment>, a: nat): (i: nat)
    ensures i <= |segs|
    ensures i < |segs| ==> InSegment(segs[i], a)
    ensures forall j :: 0 <= j < i ==> !InSegment(segs[j], a)
  {
    if segs == [] then 0
    else if InSegment(segs[0], a) then 0
    else 1 + Locate(segs[1..], a)
  }

  /** The n bytes at a lie inside the one segment that holds a. */
  predicate Holds(segs: seq<Segment>, a: nat, n: nat) {
    var i := Locate(segs, a);
    i < |segs| && a + n <= segs[i].End()
  }

  function ReadWord(segs: seq<Segment>, a: nat, n: nat): (v: nat)
    requires Holds(segs, a, n)
    ensures v < Pow256(n)
  {
    var s := segs[Locate(segs, a)];
    Load(s.data, a - s.address, n)
  }

  function SetData(segs: seq<Segment>, i: nat, data: seq<byte>): seq<Segment>
    requires i < |segs|
  {
    segs[i := segs[i].(data := data)]
  }

  function WriteWord(segs: seq<Segment>, a: nat, n: nat, v: nat): (r: seq<Segment>)
    requires Holds(segs, a, n)
    ensures SameShape(segs, r)
  {
    var i := Locate(segs, a);
    SetData(segs, i, Store(segs[i].data, a - segs[i].address, n, v))
  }

  /** Two segment lists that differ at most in their bytes. */
  ghost predicate SameShape(s: seq<Segment>, t: seq<Segment>) {
    |s| == |t| && forall i :: 0 <= i < |s| ==> |s[i].data| == |t[i].data| && s[i] == t[i].(data := s[i].data)
  }

  lemma SameLocate(s: seq<Segment>, t: seq<Segment>, a: nat)
    requires SameShape(s, t)
    ensures Locate(s, a) == Locate(t, a)
    ensures forall n: nat :: Holds(s, a, n) == Holds(t, a, n)
  {
    var i, j := Locate(s, a), Locate(t, a);
    assert i < |s| ==> InSegment(t[i], a);
    assert j < |t| ==> InSegment(s[j], a);
  }

  ghost predicate Disjoint(a: nat, n: nat, b: nat, m: nat) { a + n <= b || b + m <= a }

  lemma ReadWriteSame(segs: seq<Segment>, a: nat, n: nat, v: nat)
    requires Holds(segs, a, n) && v < Pow256(n)
    ensures Holds(WriteWord(segs, a, n, v), a, n)
    ensures ReadWord(WriteWord(segs, a, n, v), a, n) == v
  {
    SameLocate(segs, WriteWord(segs, a, n, v), a);
    var s := segs[Locate(segs, a)];
    LoadStoreSame(s.data, a - s.address, n, v);
  }

  lemma ReadWriteOther(segs: seq<Segment>, a: nat, n: nat, v: nat, b: nat, m: nat)
    requires Holds(segs, a, n) && Holds(segs, b, m) && Disjoint(a, n, b, m)
    ensures Holds(WriteWord(segs, a, n, v), b, m)
    ensures ReadWord(WriteWord(segs, a, n, v), b, m) == ReadWord(segs, b, m)
  {
    SameLocate(segs, WriteWord(segs, a, n, v), b);
    var i := Locate(segs, a);
    if i == Locate(segs, b) {
      LoadStoreOther(segs[i].data, a - segs[i].address, n, v, b - segs[i].address, m);
    }
  }

  lemma WriteWriteSame(segs: seq<Segment>, a: nat, n: nat, v: nat, w: nat)
    requires Holds(segs, a, n)
    ensures Holds(WriteWord(segs, a, n, v), a, n)
    ensures WriteWord(WriteWord(segs, a, n, v), a, n, w) == WriteWord(segs, a, n, w)
  {
    SameLocate(segs, WriteWord(segs, a, n, v), a);
    var i := Locate(segs, a);
    StoreStoreSame(segs[i].data, a - segs[i].address, n, v, w);
  }

  lemma WriteWriteOther(segs: seq<Segment>, a: nat, n: nat, v: nat, b: nat, m: nat, w: nat)
    requires Holds(segs, a, n) && Holds(segs, b, m) && Disjoint(a, n, b, m)
    ensures Holds(WriteWord(segs, a, n, v), b, m) && Holds(WriteWord(segs, b, m, w), a, n)
    ensures WriteWord(WriteWord(segs, a, n, v), b, m, w) == WriteWord(WriteWord(segs, b, m, w), a, n, v)
  {
    SameLocate(segs, WriteWord(segs, a, n, v), b);
    SameLocate(segs, WriteWord(segs, b, m, w), a);
    var i := Locate(segs, a);
    if i == Locate(segs, b) {
      StoreStoreOther(segs[i].data, a - segs[i].address, n, v, b - segs[i].address, m, w);
    }
  }

  lemma WriteRead(segs: seq<Segment>, a: nat, n: nat)
    requires Holds(segs, a, n)
    ensures WriteWord(segs, a, n, ReadWord(segs, a, n)) == segs
  {
    var s := segs[Locate(segs, a)];
    StoreLoad(s.data, a - s.address, n);
  }

  /** A write changes no byte outside its word. */
  lemma WriteFrame(segs: seq<Segment>, a: nat, n: nat, v: nat, i: nat, j: nat)
    requires Holds(segs, a, n) && i < |segs| && j < |segs[i].data|
    requires !(a <= segs[i].address + j < a + n)
    ensures WriteWord(segs, a, n, v)[i].data[j] == segs[i].data[j]
  {
    var k := Locate(segs, a);
    SpliceIndex(segs[k].data, a - segs[k].address, ToLe(v, n));
  }

  // ---------------------------------------------------------------- CheckToolImage

  predicate IsPow2(x: nat) {
    x == 1 || (x > 1 && x % 2 == 0 && IsPow2(x / 2))
  }

  predicate Aligned(x: nat, a: nat) { a > 0 && x % a == 0 }

  function ImageSize(segs: seq<Segment>): nat
    requires segs != []
  {
    segs[|segs| - 1].End()
  }

  /** CheckToolImageSegment: aligned, never writable and executable, starting where its predecessor ends. */
  predicate CheckedSegment(segs: seq<Segment>, alignment: nat, i: nat)
    requires i < |segs|
  {
    && Aligned(|segs[i].data|, alignment)
    && !(segs[i].write && segs[i].execute)
    && segs[i].End() < TWO_32
    && (i > 0 ==> segs[i].address == segs[i - 1].End())
  }

  /** CheckToolImageSegmentInfo: the segments tile the address space from the first one on. */
  predicate CheckedSegments(segs: seq<Segment>, alignment: nat) {
    && IsPow2(alignment)
    && segs != []
    && Aligned(segs[0].address, alignment)
    && forall i :: 0 <= i < |segs| ==> CheckedSegment(segs, alignment, i)
  }

  predicate CheckedHeader(h: Header, segs: seq<Segment>, alignment: nat)
    requires segs != []
  {
    && segs[0].address <= h.entryPoint <= ImageSize(segs)
    && Aligned(h.baseAddress, alignment)
    && h.baseAddress + ImageSize(segs) < TWO_64
  }

  /** One relocation: a known type whose word lies inside one segment. */
  predicate CheckedReloc(segs: seq<Segment>, r: Reloc) {
    RelocSize(r.ty) != 0 && Holds(segs, r.target, RelocSize(r.ty))
  }

  /** Sorted by target and pairwise disjoint. */
  predicate Ordered(relocs: seq<Reloc>) {
    forall i, j :: 0 <= i < j < |relocs| ==> relocs[i].End() <= relocs[j].target
  }

  predicate AllHold(segs: seq<Segment>, relocs: seq<Reloc>) {
    forall i :: 0 <= i < |relocs| ==> CheckedReloc(segs, relocs[i])
  }

  predicate CheckedRelocs(segs: seq<Segment>, relocs: seq<Reloc>) {
    && |relocs| <= 0x7FFF_FFFF
    && Ordered(relocs)
    && AllHold(segs, relocs)
  }

  predicate Checked(img: Image) {
    && CheckedSegments(img.segments, img.alignment)
    && CheckedHeader(img.header, img.segments, img.alignment)
    && (img.relocs != [] ==> !img.relocsStripped)
    && CheckedRelocs(img.segments, img.relocs)
    && (img.symbolsPath.Some? ==> |img.symbolsPath.value| <= 0xFF)
  }

  lemma SameChecked(s: seq<Segment>, t: seq<Segment>, alignment: nat)
    requires SameShape(s, t) && CheckedSegments(s, alignment)
    ensures CheckedSegments(t, alignment) && ImageSize(t) == ImageSize(s) && t[0].address == s[0].address
  {
    forall i | 0 <= i < |t| ensures CheckedSegment(t, alignment, i) {
      assert CheckedSegment(s, alignment, i);
    }
  }
}
