// The arena the decoder allocates strings and containers from: blocks are
// carved downward from the end of a malloc'ed backing buffer; when a block
// does not fit, a buffer twice as large replaces the current one, which is
// kept on a list of used buffers until everything is released at once.
//
// Addresses are naturals, 0 stands for the null pointer, and the address
// malloc returns is a parameter of the operations that call it.

module BumpAllocation {
  import opened Common

  const ALIGNMENT: nat := 8
  /** Room at the start of every backing buffer for the used-list link. */
  const HEADER_SIZE: nat := 8
  /** Redzone size; 8 only under AddressSanitizer. */
  const GUARD_SIZE: nat := 0

  /** align_down: the greatest multiple of 8 not above v. */
  function AlignDown(v: nat): (r: nat)
    ensures r % ALIGNMENT == 0 && r <= v < r + ALIGNMENT
  {
    v - v % ALIGNMENT
  }

  /**
   * align_up: (v + 7) & -8 in 64-bit arithmetic. Below 2^64 - 7 it is the
   * least multiple of 8 not below v; above, the addition wraps to 0.
   */
  function AlignUp(v: nat): (r: nat)
    requires v < TWO_64
    ensures v <= TWO_64 - ALIGNMENT ==> r % ALIGNMENT == 0 && v <= r < v + ALIGNMENT
    ensures v > TWO_64 - ALIGNMENT ==> r == 0
  {
    AlignDown(Wrap64(v + ALIGNMENT - 1))
  }

  /** Rounding down never passes a multiple of 8 below the value. */
  lemma AlignDownKeepsLowerMultiple(a: nat, v: nat)
    requires a % ALIGNMENT == 0 && a <= v
    ensures a <= AlignDown(v)
  {
  }

  lemma MultipleDifference(a: nat, b: nat)
    requires a % ALIGNMENT == 0 && b % ALIGNMENT == 0 && b <= a
    ensures (a - b) % ALIGNMENT == 0 && (2 * (a - b)) % ALIGNMENT == 0
  {
  }

  /** The exact least multiple of 8 not below v, without wrap-around. */
  function AlignUpExact(v: nat): (r: nat)
    ensures r % ALIGNMENT == 0 && v <= r < v + ALIGNMENT
  {
    AlignDown(v + ALIGNMENT - 1)
  }

  datatype Block = Block(addr: nat, size: nat)

  datatype AllocResult = Allocated(addr: nat) | Aborted

  /**
   * The size alloc_with_new_backing asks malloc for, computed exactly:
   * twice the old buffer, or twice the aligned request if that is larger.
   */
  function NewBackingSize(oldSize: nat, size: nat): nat
  {
    Max(2 * oldSize, 2 * AlignUpExact(size))
  }

  /** A new buffer is aligned, and the request fits above its header. */
  lemma NewBackingSizeFits(oldSize: nat, size: nat)
    requires oldSize % ALIGNMENT == 0 && size >= 1
    ensures var n := NewBackingSize(oldSize, size);
      n == Max(oldSize * 2, AlignUpExact(size) * 2) && n % ALIGNMENT == 0 && n >= HEADER_SIZE + size
  {
    var a := AlignUpExact(size);
    MultipleDifference(a, 0);
    MultipleDifference(oldSize, 0);
  }

  class BumpAllocator {
    var start: nat
    var end: nat
    var ptr: nat
    /** The intrusive list of retired buffers, most recently retired first. */
    var usedBuffers: seq<nat>
    /** Blocks handed out from the current backing buffer, oldest first. */
    ghost var blocks: seq<Block>

    ghost predicate Valid()
      reads this
    {
      start <= ptr <= end && ptr % ALIGNMENT == 0 &&
      (start == 0 ==> end == 0) &&
      (start != 0 ==> start > HEADER_SIZE && start % ALIGNMENT == 0 && end % ALIGNMENT == 0) &&
      (forall k :: 0 <= k < |usedBuffers| ==> usedBuffers[k] != 0) &&
      (forall i :: 0 <= i < |blocks| ==>
         ptr <= blocks[i].addr && blocks[i].addr + blocks[i].size <= end && blocks[i].addr % ALIGNMENT == 0) &&
      (forall i, j :: 0 <= i < j < |blocks| ==> blocks[j].addr + blocks[j].size <= blocks[i].addr)
    }

    /** The default constructor: no backing buffer. */
    constructor Empty()
      ensures Valid()
      ensures start == 0 && end == 0 && ptr == 0 && usedBuffers == [] && blocks == []
    {
      start, end, ptr := 0, 0, 0;
      usedBuffers := [];
      blocks := [];
    }

    /** A first backing buffer of align_up(initCapacity) bytes at mallocAddress. */
    constructor (initCapacity: nat, mallocAddress: nat)
      requires 1 <= initCapacity <= TWO_64 - ALIGNMENT
      requires mallocAddress > 0 && mallocAddress % ALIGNMENT == 0
      ensures Valid()
      ensures start == mallocAddress + HEADER_SIZE && end == mallocAddress + AlignUp(initCapacity)
      ensures Remaining() == Capacity() - HEADER_SIZE
      ensures usedBuffers == [] && blocks == []
    {
      var size := AlignUp(initCapacity);
      start := mallocAddress + HEADER_SIZE;
      end := mallocAddress + size;
      ptr := mallocAddress + size;
      usedBuffers := [];
      blocks := [];
    }

    /** backing_buffer: the malloc'ed address, just before the header; null when there is none. */
    function BackingBuffer(): (r: nat)
      reads this
      requires Valid()
      ensures start != 0 ==> r + HEADER_SIZE == start
      ensures start == 0 ==> r == 0
    {
      if start != 0 then start - HEADER_SIZE else 0
    }

    /** capacity: the size of the current backing buffer. */
    function Capacity(): (r: nat)
      reads this
      requires Valid()
      ensures start != 0 ==> r == end - BackingBuffer()
      ensures start == 0 ==> r == 0
    {
      end - BackingBuffer()
    }

    /** remaining: the bytes still free below ptr. */
    function Remaining(): (r: nat)
      reads this
      requires Valid()
      ensures start + r == ptr
    {
      ptr - start
    }

    /** push_used_buffer: links a buffer in front of the used list; null is ignored. */
    method PushUsedBuffer(buffer: nat)
      requires Valid()
      modifies this
      ensures Valid()
      ensures usedBuffers == (if buffer != 0 then [buffer] + old(usedBuffers) else old(usedBuffers))
      ensures start == old(start) && end == old(end) && ptr == old(ptr) && blocks == old(blocks)
    {
      if buffer != 0 {
        usedBuffers := [buffer] + usedBuffers;
      }
    }

    /** pop_used_buffer: unlinks and returns the most recently retired buffer. */
    method PopUsedBuffer() returns (buffer: nat)
      requires Valid() && usedBuffers != []
      modifies this
      ensures Valid()
      ensures buffer == old(usedBuffers)[0] && usedBuffers == old(usedBuffers)[1..]
      ensures start == old(start) && end == old(end) && ptr == old(ptr) && blocks == old(blocks)
    {
      buffer := usedBuffers[0];
      usedBuffers := usedBuffers[1..];
    }

    /**
     * new_backing_buffer: makes the size bytes at mallocAddress the current
     * buffer, with nothing allocated from it yet.
     */
    method NewBackingBuffer(size: nat, mallocAddress: nat)
      requires Valid()
      requires size >= HEADER_SIZE && size % ALIGNMENT == 0
      requires mallocAddress > 0 && mallocAddress % ALIGNMENT == 0
      modifies this
      ensures Valid()
      ensures start == mallocAddress + HEADER_SIZE && end == mallocAddress + size && ptr == end
      ensures usedBuffers == old(usedBuffers) && blocks == []
      ensures Capacity() == size && Remaining() == size - HEADER_SIZE
    {
      start := mallocAddress + HEADER_SIZE;
      end := mallocAddress + size;
      ptr := end;
      blocks := [];
    }

    /** Sets ptr to the aligned start of a block of size bytes at the end of a fresh buffer. */
    method PlaceFirstBlock(size: nat) returns (p: nat)
      requires Valid() && start != 0 && blocks == [] && ptr == end && start + size <= end
      modifies this
      ensures Valid()
      ensures start == old(start) && end == old(end) && usedBuffers == old(usedBuffers)
      ensures p == ptr && ptr == AlignDown(end - size) && start <= p && p + size <= end
      ensures blocks == [Block(p, size)]
    {
      AlignDownKeepsLowerMultiple(start, end - size);
      p := AlignDown(end - size);
      ptr := p;
      blocks := [Block(p, size)];
    }

    /**
     * alloc_with_new_backing: retires the current buffer, takes a new one of
     * NewBackingSize bytes and places the block at its end. A size that does
     * not fit in 64 bits aborts.
     */
    method AllocWithNewBacking(size: nat, mallocAddress: nat) returns (r: AllocResult)
      requires Valid()
      requires 1 <= size < TWO_64
      requires mallocAddress > 0 && mallocAddress % ALIGNMENT == 0
      modifies this
      ensures Valid()
      ensures var newSize := NewBackingSize(old(Capacity()), size);
        if newSize >= TWO_64 then
          r == Aborted && start == old(start) && end == old(end) && ptr == old(ptr) &&
          usedBuffers == old(usedBuffers) && blocks == old(blocks)
        else
          r == Allocated(ptr) &&
          start == mallocAddress + HEADER_SIZE && end == mallocAddress + newSize &&
          ptr == AlignDown(end - size) && start <= ptr && ptr + size <= end &&
          usedBuffers == (if old(start) != 0 then [old(BackingBuffer())] + old(usedBuffers) else old(usedBuffers)) &&
          blocks == [Block(ptr, size)]
    {
      var oldBuffer := BackingBuffer();
      var oldSize := end - oldBuffer;
      var newSize := Max(oldSize * 2, AlignUpExact(size) * 2);
      if newSize >= TWO_64 {
        return Aborted;
      }
      MultipleDifference(end, oldBuffer);
      NewBackingSizeFits(oldSize, size);
      ghost var used := if start != 0 then [oldBuffer] + usedBuffers else usedBuffers;
      PushUsedBuffer(oldBuffer);
      assert usedBuffers == used;
      NewBackingBuffer(newSize, mallocAddress);
      var p := PlaceFirstBlock(size);
      r := Allocated(p);
    }

    /** alloc_impl: bump ptr down when the block fits above start, else take a new buffer. */
    method AllocImpl(size: nat, mallocAddress: nat) returns (r: AllocResult)
      requires Valid()
      requires size < TWO_64
      requires mallocAddress > 0 && mallocAddress % ALIGNMENT == 0
      modifies this
      ensures Valid()
      ensures r.Allocated? ==>
        r.addr == ptr && r.addr % ALIGNMENT == 0 && start <= r.addr && r.addr + size <= end &&
        |blocks| > 0 && blocks[|blocks| - 1] == Block(r.addr, size)
      ensures old(ptr) >= size && AlignDown(old(ptr) - size) >= old(start) ==>
        r == Allocated(AlignDown(old(ptr) - size)) &&
        start == old(start) && end == old(end) && usedBuffers == old(usedBuffers) &&
        blocks == old(blocks) + [Block(r.addr, size)]
      ensures !(old(ptr) >= size && AlignDown(old(ptr) - size) >= old(start)) ==>
        var newSize := NewBackingSize(old(Capacity()), size);
        (if newSize >= TWO_64 then
           r == Aborted && blocks == old(blocks)
         else
           r == Allocated(ptr) &&
           start == mallocAddress + HEADER_SIZE && end == mallocAddress + newSize &&
           usedBuffers == (if old(start) != 0 then [old(BackingBuffer())] + old(usedBuffers) else old(usedBuffers)) &&
           blocks == [Block(ptr, size)])
      ensures r == Aborted ==>
        start == old(start) && end == old(end) && ptr == old(ptr) && usedBuffers == old(usedBuffers)
    {
      if ptr < size || start > AlignDown(ptr - size) {
        r := AllocWithNewBacking(size, mallocAddress);
        return;
      }
      ptr := AlignDown(ptr - size);
      blocks := blocks + [Block(ptr, size)];
      r := Allocated(ptr);
    }

    /** alloc: a word-aligned block of at least size bytes. */
    method Alloc(size: nat, mallocAddress: nat) returns (r: AllocResult)
      requires Valid()
      requires size < TWO_64 - 1 - GUARD_SIZE
      requires mallocAddress > 0 && mallocAddress % ALIGNMENT == 0
      modifies this
      ensures Valid()
      ensures r.Allocated? ==>
        r.addr % ALIGNMENT == 0 && start <= r.addr && r.addr + size <= end &&
        |blocks| > 0 && blocks[|blocks| - 1] == Block(r.addr, size + GUARD_SIZE)
      ensures var n := size + GUARD_SIZE;
        if old(ptr) >= n && AlignDown(old(ptr) - n) >= old(start) then
          r == Allocated(AlignDown(old(ptr) - n)) &&
          start == old(start) && end == old(end) && usedBuffers == old(usedBuffers) &&
          blocks == old(blocks) + [Block(r.addr, n)]
        else
          var newSize := NewBackingSize(old(Capacity()), n);
          (if newSize >= TWO_64 then
             r == Aborted && start == old(start) && end == old(end) && ptr == old(ptr) &&
             usedBuffers == old(usedBuffers) && blocks == old(blocks)
           else
             r == Allocated(ptr) &&
             start == mallocAddress + HEADER_SIZE && end == mallocAddress + newSize &&
             usedBuffers == (if old(start) != 0 then [old(BackingBuffer())] + old(usedBuffers) else old(usedBuffers)) &&
             blocks == [Block(ptr, n)])
    {
      r := AllocImpl(size + GUARD_SIZE, mallocAddress);
    }

    /** reserve: afterwards at least size bytes can be allocated without a new buffer. */
    method Reserve(size: nat, mallocAddress: nat)
      requires Valid()
      requires size <= TWO_64 - 2 * ALIGNMENT
      requires mallocAddress > 0 && mallocAddress % ALIGNMENT == 0
      modifies this
      ensures Valid()
      ensures Remaining() >= size
      ensures old(Remaining()) >= size ==>
        start == old(start) && end == old(end) && ptr == old(ptr) && usedBuffers == old(usedBuffers) && blocks == old(blocks)
      ensures old(Remaining()) < size ==>
        usedBuffers == (if old(start) != 0 then [old(BackingBuffer())] + old(usedBuffers) else old(usedBuffers)) &&
        Capacity() == AlignUp(size) + HEADER_SIZE && blocks == []
    {
      if size > Remaining() {
        PushUsedBuffer(BackingBuffer());
        NewBackingBuffer(AlignUp(size) + HEADER_SIZE, mallocAddress);
      }
    }

    /**
     * dealloc_all: frees every retired buffer, most recent first, and makes
     * the whole current buffer free again. Returns the addresses passed to free.
     */
    method DeallocAll() returns (freed: seq<nat>)
      requires Valid()
      modifies this
      ensures Valid()
      ensures freed == old(usedBuffers) && usedBuffers == []
      ensures start == old(start) && end == old(end) && ptr == end && blocks == []
      ensures start != 0 ==> Remaining() == Capacity() - HEADER_SIZE
    {
      freed := [];
      while usedBuffers != []
        invariant Valid()
        invariant freed + usedBuffers == old(usedBuffers)
        invariant start == old(start) && end == old(end) && ptr == old(ptr) && blocks == old(blocks)
        decreases |usedBuffers|
      {
        var buffer := PopUsedBuffer();
        freed := freed + [buffer];
      }
      ptr := end;
      blocks := [];
    }

    /** The destructor: frees the current buffer, then the retired ones. */
    method Destroy() returns (freed: seq<nat>)
      requires Valid()
      modifies this
      ensures freed == (if old(start) != 0 then [old(BackingBuffer())] else []) + old(usedBuffers)
    {
      var backing := BackingBuffer();
      var rest := DeallocAll();
      freed := (if backing != 0 then [backing] else []) + rest;
    }

    /** The move constructor: takes over the buffers of other and leaves it empty. */
    constructor Move(other: BumpAllocator)
      requires other.Valid()
      modifies other
      ensures Valid() && other.Valid()
      ensures start == old(other.start) && end == old(other.end) && ptr == old(other.ptr)
      ensures usedBuffers == old(other.usedBuffers) && blocks == old(other.blocks)
      ensures other.start == 0 && other.end == 0 && other.ptr == 0 && other.usedBuffers == []
    {
      start, end, ptr := other.start, other.end, other.ptr;
      usedBuffers := other.usedBuffers;
      blocks := other.blocks;
      new;
      other.start, other.end, other.ptr := 0, 0, 0;
      other.usedBuffers := [];
      other.blocks := [];
    }

    /**
     * Move assignment: frees the own buffers, takes over those of other and
     * leaves it empty. Returns the addresses passed to free.
     */
    method MoveFrom(other: BumpAllocator) returns (freed: seq<nat>)
      requires Valid() && other.Valid() && other != this
      modifies this, other
      ensures Valid() && other.Valid()
      ensures freed == (if old(start) != 0 then [old(BackingBuffer())] else []) + old(usedBuffers)
      ensures start == old(other.start) && end == old(other.end) && ptr == old(other.ptr)
      ensures usedBuffers == old(other.usedBuffers) && blocks == old(other.blocks)
      ensures other.start == 0 && other.end == 0 && other.ptr == 0 && other.usedBuffers == []
    {
      freed := Destroy();
      start, end, ptr := other.start, other.end, other.ptr;
      usedBuffers := other.usedBuffers;
      blocks := other.blocks;
      other.start, other.end, other.ptr := 0, 0, 0;
      other.usedBuffers := [];
      other.blocks := [];
    }
  }

  /**
   * Blocks handed out from one buffer never overlap. The property is a
   * conjunct of Valid, so every allocating method carries it through its
   * ensures Valid().
   */
  lemma BlocksAreDisjoint(a: BumpAllocator, i: nat, j: nat)
    requires a.Valid() && i < j < |a.blocks|
    ensures a.blocks[j].addr + a.blocks[j].size <= a.blocks[i].addr
    ensures a.blocks[i].addr >= a.start
  {
  }

  // ---------------------------------------------------------------------
  // The slow path as the C++ code writes it

  /**
   * alloc_with_new_backing with size_t arithmetic: both doublings wrap at
   * 2^64 and the only overflow check is newsize < oldsize. Returns the new
   * buffer size and the block address, or None when it aborts.
   */
  function SlowPathAsWritten(oldSize: nat, size: nat, mallocAddress: nat): Option<(nat, nat)>
    requires oldSize < TWO_64 && size < TWO_64
  {
    var newSize := Max(Wrap64(oldSize * 2), Wrap64(AlignUp(size) * 2));
    if newSize < oldSize then None
    else Some((newSize, AlignDown(Wrap64(mallocAddress + newSize - size))))
  }

  /**
   * A 2^63-byte request on an allocator holding a 16 KiB buffer: the doubled
   * aligned size wraps to 0, newsize is 32 KiB, the check passes, and the
   * block address lies far outside the new 32 KiB buffer.
   */
  lemma SlowPathOverflowEscapes()
    ensures var r := SlowPathAsWritten(0x4000, TWO_63, 0x1_0000);
      r.Some? && r.value.0 == 0x8000 &&
      !(0x1_0000 + HEADER_SIZE <= r.value.1 && r.value.1 + TWO_63 <= 0x1_0000 + 0x8000)
  {
    assert AlignUp(TWO_63) == TWO_63;
    assert Wrap64(TWO_63 * 2) == 0;
  }

  /** With exact sizes the same request aborts. */
  lemma SlowPathOverflowAborts()
    ensures NewBackingSize(0x4000, TWO_63) >= TWO_64
  {
  }
}
