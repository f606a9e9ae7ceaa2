/** The growing read buffer of the syntax checker (`checker_read_source` in
    scripts/codegen/mquickjs_syntax_check.c). */
module SourceReader {
  import opened Wire

  const SOURCE_MAX := 0x10_0000

  /** A C stream over fixed contents. It ends, or fails for good, at a fixed place; like
      `fread`, a read stops short only there. */
  class InputFile {
    const data: bytes
    const failsAt: Option<nat>
    var position: nat
    var eof: bool
    var error: bool

    constructor (data: bytes, failsAt: Option<nat>)
      requires failsAt.Some? ==> failsAt.value <= |data|
      ensures this.data == data && this.failsAt == failsAt
      ensures Valid() && position == 0 && !eof && !error
    {
      this.data, this.failsAt, position, eof, error := data, failsAt, 0, false, false;
    }

    /** The number of bytes that can be read at all. */
    function Readable(): nat {
      failsAt.GetOr(|data|)
    }

    predicate Valid()
      reads this
    {
      && position <= Readable() <= |data|
      && (eof ==> failsAt.None? && position == |data|)
      && (error ==> failsAt.Some? && position == Readable())
    }

    /** `fread(buffer + offset, 1, n, file)` */
    method Read(buffer: array<byte>, offset: nat, n: nat) returns (count: nat)
      requires Valid() && offset + n <= buffer.Length
      modifies this`position, this`eof, this`error, buffer
      ensures Valid() && position == old(position) + count && count <= n
      ensures forall k :: offset <= k < offset + count ==> buffer[k] == data[old(position) + k - offset]
      ensures forall k :: 0 <= k < buffer.Length && !(offset <= k < offset + count) ==> buffer[k] == old(buffer[k])
      ensures count < n ==> position == Readable() && (if failsAt.Some? then error else eof)
      ensures count == n ==> eof == old(eof) && error == old(error)
    {
      count := if Readable() - position < n then Readable() - position else n;
      var i := 0;
      while i < count
        modifies buffer
        invariant 0 <= i <= count
        invariant forall k :: offset <= k < offset + i ==> buffer[k] == data[position + k - offset]
        invariant forall k :: 0 <= k < buffer.Length && !(offset <= k < offset + i) ==> buffer[k] == old(buffer[k])
      {
        buffer[offset + i] := data[position + i];
        i := i + 1;
      }
      position := position + count;
      if count < n {
        if failsAt.Some? {
          error := true;
        } else {
          eof := true;
        }
      }
    }
  }

  function Grown(capacity: nat): nat {
    if capacity * 2 > SOURCE_MAX then SOURCE_MAX else capacity * 2
  }

  lemma GrowthIs(capacity: nat)
    requires 0 < capacity <= SOURCE_MAX
    ensures Grown(capacity) == if capacity * 2 > SOURCE_MAX then SOURCE_MAX else capacity * 2
    ensures capacity <= Grown(capacity) <= SOURCE_MAX && (Grown(capacity) == capacity <==> capacity == SOURCE_MAX)
  {
  }

  /** Every allocation that a source of `size` bytes asks for from `capacity` on succeeds;
      a full buffer is enlarged before the end of the source is noticed. */
  predicate Allocates(allocates: nat -> bool, capacity: nat, size: nat)
    requires 0 < capacity <= SOURCE_MAX
    decreases SOURCE_MAX - capacity
  {
    allocates(capacity + 1) && (size >= capacity && capacity < SOURCE_MAX ==> Allocates(allocates, Grown(capacity), size))
  }

  lemma AllocationStep(allocates: nat -> bool, capacity: nat, size: nat)
    requires 0 < capacity <= SOURCE_MAX
    ensures Allocates(allocates, capacity, size) ==> allocates(capacity + 1)
    ensures allocates(capacity + 1) && !(size >= capacity && capacity < SOURCE_MAX) ==> Allocates(allocates, capacity, size)
    ensures allocates(capacity + 1) && size >= capacity && capacity < SOURCE_MAX ==>
              (Allocates(allocates, capacity, size) <==> Allocates(allocates, Grown(capacity), size))
  {
  }

  /** With memory for the largest buffer and all smaller ones, only the size decides. */
  lemma {:induction false} EnoughMemory(allocates: nat -> bool, capacity: nat, size: nat)
    requires 0 < capacity <= SOURCE_MAX && forall n: nat :: n <= SOURCE_MAX + 1 ==> allocates(n)
    ensures Allocates(allocates, capacity, size)
    decreases SOURCE_MAX - capacity
  {
    if size >= capacity && capacity < SOURCE_MAX {
      EnoughMemory(allocates, Grown(capacity), size);
    }
  }

  /** The buffers that are asked for: 4096 bytes, and twice as much each time the source fills
      the last one, up to the limit; each with a byte for the NUL. */
  lemma AllocationsAre(allocates: nat -> bool, size: nat)
    ensures Allocates(allocates, 0x1000, size) <==>
            && allocates(0x1001)
            && (size >= 0x1000 ==> allocates(0x2001)) && (size >= 0x2000 ==> allocates(0x4001))
            && (size >= 0x4000 ==> allocates(0x8001)) && (size >= 0x8000 ==> allocates(0x1_0001))
            && (size >= 0x1_0000 ==> allocates(0x2_0001)) && (size >= 0x2_0000 ==> allocates(0x4_0001))
            && (size >= 0x4_0000 ==> allocates(0x8_0001)) && (size >= 0x8_0000 ==> allocates(0x10_0001))
  {
    hide Allocates;
    AllocationStep(allocates, 0x1000, size);
    AllocationStep(allocates, 0x2000, size);
    AllocationStep(allocates, 0x4000, size);
    AllocationStep(allocates, 0x8000, size);
    AllocationStep(allocates, 0x1_0000, size);
    AllocationStep(allocates, 0x2_0000, size);
    AllocationStep(allocates, 0x4_0000, size);
    AllocationStep(allocates, 0x8_0000, size);
    AllocationStep(allocates, 0x10_0000, size);
  }

  /** `realloc`, keeping what was read. */
  method Enlarge(source: array<byte>, length: nat, capacity: nat) returns (next: array<byte>)
    requires length <= source.Length <= capacity + 1
    ensures fresh(next) && next.Length == capacity + 1 && forall k :: 0 <= k < length ==> next[k] == source[k]
  {
    next := new byte[capacity + 1];
    var i := 0;
    while i < length
      invariant 0 <= i <= length && forall k :: 0 <= k < i ==> next[k] == source[k]
    {
      next[i] := source[i];
      i := i + 1;
    }
  }

  predicate HoldsPrefix(source: array<byte>, data: bytes, length: nat)
    requires length <= source.Length && length <= |data|
    reads source
  {
    forall k :: 0 <= k < length ==> source[k] == data[k]
  }

  /** `checker_read_source`: it succeeds exactly for a source that is shorter than the
      limit, can be read to its end and gets its memory, and then returns all of it with a
      terminating NUL. No access leaves the buffer of capacity + 1 bytes. */
  method ReadSource(file: InputFile, allocates: nat -> bool) returns (r: Option<array<byte>>, length: nat)
    requires file.Valid() && file.position == 0 && !file.eof && !file.error
    modifies file`position, file`eof, file`error
    ensures r.Some? <==> |file.data| < SOURCE_MAX && file.failsAt.None? && Allocates(allocates, 4096, |file.data|)
    ensures r.Some? ==> fresh(r.value) && length == |file.data| < r.value.Length
    ensures r.Some? ==> r.value[..length] == file.data && r.value[length] == 0
  {
    hide Allocates, Grown;
    var capacity := 4096;
    length := 0;
    AllocationStep(allocates, capacity, |file.data|);
    if !allocates(capacity + 1) {
      return None, length;
    }
    var source := new byte[capacity + 1];
    while !file.eof
      invariant file.Valid() && length == file.position <= capacity <= SOURCE_MAX && 0 < capacity
      invariant fresh(source) && source.Length == capacity + 1 && HoldsPrefix(source, file.data, length)
      invariant allocates(capacity + 1) && (file.eof ==> |file.data| < capacity)
      invariant Allocates(allocates, 4096, |file.data|) <==> Allocates(allocates, capacity, |file.data|)
      decreases !file.eof, SOURCE_MAX - capacity, |file.data| - length
    {
      if length == capacity {
        var nextCapacity := capacity * 2;
        if nextCapacity > SOURCE_MAX {
          nextCapacity := SOURCE_MAX;
        }
        GrowthIs(capacity);
        assert nextCapacity == Grown(capacity);
        AllocationStep(allocates, capacity, |file.data|);
        if nextCapacity == capacity {
          return None, length;
        }
        AllocationStep(allocates, nextCapacity, |file.data|);
        if !allocates(nextCapacity + 1) {
          return None, length;
        }
        source := Enlarge(source, length, nextCapacity);
        capacity := nextCapacity;
      }
      var readLength := file.Read(source, length, capacity - length);
      length := length + readLength;
      if readLength == 0 && file.error {
        return None, length;
      }
    }
    AllocationStep(allocates, capacity, |file.data|);
    source[length] := 0;
    assert source[..length] == file.data;
    return Some(source), length;
  }
}
