/** The growable output buffer every emitter appends to (DynamicBuffer.c). */
module DynamicBuffer {
  import opened Bytes

  const GROWTH: uint32 := 0x1000

  /** Appending `size` bytes to a buffer of `length` bytes is refused only when this holds. */
  predicate Oversized(length: nat) {
    2 * length + GROWTH > TWO_32
  }

  /** Up to 2 GiB less 2 KiB nothing is refused. */
  lemma Undersized(length: nat)
    ensures !Oversized(length) <==> length <= 0x7FFF_F800
  {
  }

  /** What growing the capacity in steps of 4 KiB keeps, and when it overflows 32 bits. */
  lemma Growth(dataSize: uint32, capacity: nat, size: uint32)
    requires dataSize <= capacity <= TWO_32 - GROWTH && capacity % GROWTH == 0 && capacity <= 2 * dataSize + (GROWTH - 2)
    requires capacity - dataSize < size
    ensures var newSize := AlignUp(size, GROWTH) + capacity;
            && newSize % GROWTH == 0 && newSize <= 2 * (dataSize + size) + (GROWTH - 2)
            && dataSize + size <= newSize
            && (newSize < TWO_32 ==> newSize <= TWO_32 - GROWTH)
            && (newSize >= TWO_32 || size + (GROWTH - 1) >= TWO_32 ==> Oversized(dataSize + size))
  {
    ModSum(AlignUp(size, GROWTH), capacity, GROWTH);
  }

  /** The capacity after room has been made for `size` more bytes; None when it would overflow 32 bits. */
  function Grown(capacity: nat, dataSize: nat, size: nat): (r: Option<nat>)
    requires dataSize <= capacity
  {
    if capacity - dataSize >= size then Some(capacity)
    else if size + (GROWTH - 1) >= TWO_32 || AlignUp(size, GROWTH) + capacity >= TWO_32 then None
    else Some(AlignUp(size, GROWTH) + capacity)
  }

  /** The capacity grows only if it must, by the size rounded up to 4 KiB, and only while it fits 32 bits. */
  lemma GrownIs(capacity: nat, dataSize: nat, size: nat)
    requires dataSize <= capacity
    ensures var more := AlignUp(size, 4096);
            Grown(capacity, dataSize, size)
            == if dataSize + size <= capacity then Some(capacity)
               else if capacity + more <= 0xFFFF_FFFF then Some(capacity + more)
               else None
  {
    hide AlignAddend;
    assert 0x1_0000_0000 % 4096 == 0;
  }

  /** `memory` of length zero stands for the NULL pointer of a buffer that has never grown. */
  class Buffer {
    var memory: array<byte>
    var dataSize: uint32

    ghost predicate Valid()
      reads this
    {
      && dataSize <= memory.Length <= TWO_32 - GROWTH
      && memory.Length % GROWTH == 0
      && memory.Length <= 2 * dataSize + (GROWTH - 2)
    }

    function Contents(): (s: seq<byte>)
      requires Valid()
      reads this, memory
      ensures |s| == dataSize
    {
      memory[..dataSize]
    }

    constructor ()
      ensures Valid() && Contents() == [] && fresh(memory)
    {
      memory := new byte[0];
      dataSize := 0;
    }

    /** The copy into a new allocation. */
    method Reallocate(newSize: nat)
      requires dataSize <= memory.Length && dataSize <= newSize
      modifies this`memory
      ensures fresh(memory) && memory.Length == newSize && memory[..dataSize] == old(memory[..dataSize])
    {
      var newMemory := new byte[newSize](_ => 0);
      var i := 0;
      while i < dataSize
        invariant 0 <= i <= dataSize
        invariant forall j :: 0 <= j < i ==> newMemory[j] == memory[j]
        modifies newMemory
      {
        newMemory[i] := memory[i];
        i := i + 1;
      }
      memory := newMemory;
    }

    /** ImageToolBufferExpand: the new bytes are unspecified here; the callers below define them. */
    method Expand(size: uint32) returns (offset: uint32)
      requires Valid()
      modifies this
      ensures Valid() && (memory == old(memory) || fresh(memory))
      ensures offset == MAX_UINT32 ==> Oversized(old(dataSize) + size)
      ensures offset == MAX_UINT32 ==> memory == old(memory) && dataSize == old(dataSize)
      ensures offset != MAX_UINT32 ==> offset == old(dataSize) && dataSize == offset + size
      ensures offset != MAX_UINT32 ==> memory[..offset] == old(Contents())
      ensures Grown(old(memory.Length), old(dataSize), size) == if offset == MAX_UINT32 then None else Some(memory.Length)
    {
      if memory.Length - dataSize < size {
        Growth(dataSize, memory.Length, size);
        // BaseOverflowAlignUpU32, then BaseOverflowAddU32.
        if size + (GROWTH - 1) >= TWO_32 {
          return MAX_UINT32;
        }
        var growth := AlignUp(size, GROWTH);
        if growth + memory.Length >= TWO_32 {
          return MAX_UINT32;
        }
        Reallocate(growth + memory.Length);
      }
      offset := dataSize;
      dataSize := dataSize + size;
    }

    method Read(offset: uint32, size: uint32) returns (data: seq<byte>)
      requires Valid() && 0 < size && offset + size <= dataSize
      ensures data == Contents()[offset..offset + size]
    {
      data := memory[offset..offset + size];
    }

    /** ImageToolBufferWrite: memmove over bytes that are already part of the buffer. */
    method Write(offset: uint32, data: seq<byte>)
      requires Valid() && 0 < |data| && offset + |data| <= dataSize
      modifies memory
      ensures Valid()
      ensures Contents() == Splice(old(Contents()), offset, data)
    {
      Move(offset, data);
    }

    method Move(offset: nat, data: seq<byte>)
      requires offset + |data| <= memory.Length
      modifies memory
      ensures memory[..] == Splice(old(memory[..]), offset, data)
    {
      var i := 0;
      while i < |data|
        invariant 0 <= i <= |data|
        invariant forall j :: 0 <= j < memory.Length ==>
                    memory[j] == if offset <= j < offset + i then data[j - offset] else old(memory[j])
      {
        memory[offset + i] := data[i];
        i := i + 1;
      }
      SpliceIndex(old(memory[..]), offset, data);
    }

    method Append(data: seq<byte>) returns (offset: uint32)
      requires Valid() && |data| < TWO_32
      modifies this, memory
      ensures Valid() && (memory == old(memory) || fresh(memory))
      ensures offset == MAX_UINT32 ==> Oversized(old(dataSize) + |data|)
      ensures offset == MAX_UINT32 ==> Contents() == old(Contents())
      ensures offset != MAX_UINT32 ==> offset == old(dataSize) && Contents() == old(Contents()) + data
      ensures Grown(old(memory.Length), old(dataSize), |data|) == if offset == MAX_UINT32 then None else Some(memory.Length)
    {
      offset := Expand(|data|);
      if offset != MAX_UINT32 {
        ghost var before := memory[..];
        Move(offset, data);
        assert Contents() == Splice(before, offset, data)[..dataSize];
      }
    }

    method AppendReserve(size: uint32) returns (offset: uint32)
      requires Valid()
      modifies this, memory
      ensures Valid() && (memory == old(memory) || fresh(memory))
      ensures offset == MAX_UINT32 ==> Oversized(old(dataSize) + size)
      ensures offset == MAX_UINT32 ==> Contents() == old(Contents())
      ensures offset != MAX_UINT32 ==> offset == old(dataSize) && Contents() == old(Contents()) + Zeros(size)
    {
      offset := Expand(size);
      if offset != MAX_UINT32 {
        ghost var before := memory[..];
        Move(offset, Zeros(size));
        assert Contents() == Splice(before, offset, Zeros(size))[..dataSize];
      }
    }

    method AppendReserveAlign(alignment: uint32) returns (offset: uint32)
      requires Valid() && alignment > 0
      modifies this, memory
      ensures Valid() && (memory == old(memory) || fresh(memory))
      ensures offset == MAX_UINT32 ==> Oversized(AlignUp(old(dataSize), alignment))
      ensures offset == MAX_UINT32 ==> Contents() == old(Contents())
      ensures offset != MAX_UINT32 ==> offset == old(dataSize) && dataSize % alignment == 0
      ensures offset != MAX_UINT32 ==>
        Contents() == old(Contents()) + Zeros(AlignAddend(old(dataSize), alignment))
    {
      offset := AppendReserve(AlignAddend(dataSize, alignment));
    }
  }

  // ---------------------------------------------------------------- whole runs

  datatype Op = Append(data: seq<byte>) | Reserve(size: uint32) | Align(alignment: uint32) | Write(offset: uint32, data: seq<byte>)

  /** What the callers of the buffer keep to: sizes in 32 bits, real alignments, writes inside the contents. */
  predicate Allowed(s: seq<byte>, op: Op) {
    match op
    case Append(data) => |data| < TWO_32
    case Reserve(_) => true
    case Align(alignment) => alignment > 0
    case Write(offset, data) => 0 < |data| && offset + |data| <= |s|
  }

  /** The abstract buffer: a byte sequence. A failed operation leaves it alone. */
  function Apply(s: seq<byte>, op: Op, failed: bool): (t: seq<byte>)
    requires Allowed(s, op)
  {
    if failed then s
    else
      match op
      case Append(data) => s + data
      case Reserve(size) => s + Zeros(size)
      case Align(alignment) => s + Zeros(AlignAddend(|s|, alignment))
      case Write(offset, data) => Splice(s, offset, data)
  }

  /** How far an operation would extend the contents. */
  function Reach(s: seq<byte>, op: Op): nat
    requires Allowed(s, op)
  {
    |Apply(s, op, false)|
  }

  method Perform(b: Buffer, op: Op) returns (offset: uint32)
    requires b.Valid() && Allowed(b.Contents(), op)
    modifies b, b.memory
    ensures b.Valid() && (b.memory == old(b.memory) || fresh(b.memory))
    ensures b.Contents() == Apply(old(b.Contents()), op, offset == MAX_UINT32)
    ensures offset == MAX_UINT32 ==> Oversized(Reach(old(b.Contents()), op))
    ensures offset != MAX_UINT32 && !op.Write? ==> offset == |old(b.Contents())|
  {
    match op
    case Append(data) => offset := b.Append(data);
    case Reserve(size) => offset := b.AppendReserve(size);
    case Align(alignment) => offset := b.AppendReserveAlign(alignment);
    case Write(at, data) =>
      b.Write(at, data);
      offset := at;
  }

  /** The abstract buffer after the first n operations, given what each of them returned. */
  function After(ops: seq<Op>, offsets: seq<uint32>, n: nat): (s: Option<seq<byte>>)
    requires n <= |ops| && n <= |offsets|
  {
    if n == 0 then Some([])
    else
      var s := After(ops, offsets, n - 1);
      if s.None? || !Allowed(s.value, ops[n - 1]) then None
      else Some(Apply(s.value, ops[n - 1], offsets[n - 1] == MAX_UINT32))
  }

  lemma {:induction false} AfterPrefix(ops: seq<Op>, offsets: seq<uint32>, x: uint32, n: nat)
    requires n <= |ops| && n <= |offsets|
    ensures After(ops, offsets + [x], n) == After(ops, offsets, n)
  {
    hide Apply, Allowed;
    if n > 0 {
      AfterPrefix(ops, offsets, x, n - 1);
    }
  }

  /** Any run of operations on a new buffer acts as on a byte sequence; it stops at an operation that is not allowed. */
  method Run(ops: seq<Op>) returns (b: Buffer, offsets: seq<uint32>)
    ensures fresh(b) && b.Valid() && |offsets| <= |ops|
    ensures After(ops, offsets, |offsets|) == Some(b.Contents())
    ensures |offsets| < |ops| ==> !Allowed(b.Contents(), ops[|offsets|])
    ensures forall i :: 0 <= i < |offsets| ==> Returned(ops, offsets, i)
  {
    hide Apply, Allowed, Oversized, Reach;
    b := new Buffer();
    offsets := [];
    while |offsets| < |ops|
      invariant fresh(b) && fresh(b.memory) && b.Valid() && |offsets| <= |ops|
      invariant After(ops, offsets, |offsets|) == Some(b.Contents())
      invariant forall i :: 0 <= i < |offsets| ==> Returned(ops, offsets, i)
      decreases |ops| - |offsets|
    {
      var n := |offsets|;
      if !Allowed(b.Contents(), ops[n]) {
        return;
      }
      ghost var s := b.Contents();
      var offset := Perform(b, ops[n]);
      AfterPrefix(ops, offsets, offset, n);
      forall i | 0 <= i < n ensures Returned(ops, offsets + [offset], i) {
        assert Returned(ops, offsets, i);
        AfterPrefix(ops, offsets, offset, i);
      }
      offsets := offsets + [offset];
      assert Returned(ops, offsets, n);
    }
  }

  /** An operation fails only for size, and an append otherwise returns the old length, which is never the failure value. */
  ghost predicate Returned(ops: seq<Op>, offsets: seq<uint32>, i: nat)
    requires i < |ops| && i < |offsets|
  {
    var s := After(ops, offsets, i);
    && s.Some? && Allowed(s.value, ops[i])
    && (offsets[i] == MAX_UINT32 ==> Oversized(Reach(s.value, ops[i])))
    && (offsets[i] != MAX_UINT32 && !ops[i].Write? ==> offsets[i] == |s.value|)
  }
}
