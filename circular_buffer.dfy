// The growable FIFO byte buffer behind the MessagePack packer.
//
// The C++ code maps every buffer twice, back to back, so that the byte at
// address buffsize + i is the byte at address i; a window [index,
// index + length) can then be read and written as one contiguous run. Here
// the storage is an array of buffsize bytes and that aliasing is the
// function Mirror: logical byte k of the contents lives at
// buffer[(index + k) mod buffsize].

module CircularBuffers {
  import opened Common

  /** The virtual memory page size of the modelled machine. */
  const PAGE_SIZE: nat := 4096

  // ---------------------------------------------------------------------
  // Arithmetic of capacities and indices

  /** mach_vm_round_page: round up to a whole number of pages, in 64-bit arithmetic. */
  function RoundPage(v: nat): (r: nat)
    requires v < TWO_64
    ensures r % PAGE_SIZE == 0
    ensures v + PAGE_SIZE - 1 < TWO_64 ==> v <= r < v + PAGE_SIZE
  {
    Wrap64((v + PAGE_SIZE - 1) / PAGE_SIZE * PAGE_SIZE)
  }

  /** The least power of two that is at least v. */
  function NextPowerOfTwo(v: nat): (r: nat)
    ensures r >= v && r >= 1
    decreases v
  {
    if v <= 1 then 1 else 2 * NextPowerOfTwo((v + 1) / 2)
  }

  lemma {:induction false} NextPowerOfTwoIsLeast(v: nat)
    ensures IsPowerOfTwo(NextPowerOfTwo(v))
    ensures v >= 1 ==> NextPowerOfTwo(v) / 2 < v
    decreases v
  {
    if v > 1 {
      NextPowerOfTwoIsLeast((v + 1) / 2);
      PowerOfTwoDoubles(NextPowerOfTwo((v + 1) / 2));
    }
  }

  lemma {:induction false} LargePowerOfTwoIsPageMultiple(p: nat)
    requires IsPowerOfTwo(p) && p >= PAGE_SIZE
    ensures p % PAGE_SIZE == 0
    decreases p
  {
    if p > PAGE_SIZE {
      LargePowerOfTwoIsPageMultiple(p / 2);
    }
  }

  /**
   * round_up_capacity: the least power of two that is at least v, raised to
   * one page. The decrement before the bit smearing and the increment after
   * it wrap around at 2^64, so 0 and every value above 2^63 give 0.
   */
  function RoundUpCapacity(v: nat): (r: nat)
    requires v < TWO_64
  {
    if v == 0 || v > TWO_63 then 0
    else
      NextPowerOfTwoIsLeast(v);
      RoundPage(NextPowerOfTwo(v))
  }

  lemma RoundUpCapacityMeaning(v: nat)
    requires v < TWO_64
    ensures v == 0 || v > TWO_63 ==> RoundUpCapacity(v) == 0
    ensures 0 < v <= TWO_63 ==>
      var r := RoundUpCapacity(v);
      IsPowerOfTwo(r) && r >= v && r >= PAGE_SIZE && r <= TWO_63 &&
      (r == PAGE_SIZE || r / 2 < v) && r <= Max(PAGE_SIZE, 2 * v)
  {
    if 0 < v <= TWO_63 {
      NextPowerOfTwoIsLeast(v);
      var p := NextPowerOfTwo(v);
      Pow2IsPowerOfTwo(63);
      Pow2Of63();
      PowersOfTwoBelowDouble(p, TWO_63);
      RoundPageOfPowerOfTwo(p);
      assert p == 1 || p % 2 == 0;
    }
  }

  /** Of two powers of two, one below twice the other is at most the other. */
  lemma {:induction false} PowersOfTwoBelowDouble(p: nat, b: nat)
    requires IsPowerOfTwo(p) && IsPowerOfTwo(b) && p < 2 * b
    ensures p <= b
    decreases b
  {
    if p > 1 && b > 1 {
      PowersOfTwoBelowDouble(p / 2, b / 2);
    }
  }

  lemma RoundPageOfPowerOfTwo(p: nat)
    requires IsPowerOfTwo(p) && p <= TWO_63
    ensures RoundPage(p) == Max(p, PAGE_SIZE)
    ensures IsPowerOfTwo(RoundPage(p))
  {
    if p >= PAGE_SIZE {
      LargePowerOfTwoIsPageMultiple(p);
      assert (p + PAGE_SIZE - 1) / PAGE_SIZE == p / PAGE_SIZE;
    } else {
      assert (p + PAGE_SIZE - 1) / PAGE_SIZE == 1;
      PageSizeIsPowerOfTwo();
    }
  }

  lemma PageSizeIsPowerOfTwo()
    ensures IsPowerOfTwo(PAGE_SIZE)
  {
    Pow2IsPowerOfTwo(12);
    assert Pow2(12) == PAGE_SIZE;
  }

  /** Bitwise and of two naturals. */
  function BitAnd(a: nat, b: nat): (r: nat)
    ensures r <= a && r <= b
  {
    if a == 0 || b == 0 then 0
    else 2 * BitAnd(a / 2, b / 2) + (if a % 2 == 1 && b % 2 == 1 then 1 else 0)
  }

  /** Masking with m - 1 is the remainder modulo m when m is a power of two. */
  lemma {:induction false} MaskIsRemainder(x: nat, m: nat)
    requires IsPowerOfTwo(m)
    ensures BitAnd(x, m - 1) == x % m
    decreases m
  {
    if m == 1 {
    } else if x == 0 {
    } else {
      var h := m / 2;
      MaskIsRemainder(x / 2, h);
      assert (m - 1) / 2 == h - 1 && (m - 1) % 2 == 1;
      RemainderStep(x, h);
    }
  }

  lemma RemainderStep(x: nat, h: nat)
    requires h > 0
    ensures 2 * ((x / 2) % h) + x % 2 == x % (2 * h)
  {
    var q := (x / 2) / h;
    var r := (x / 2) % h;
    assert x / 2 == h * q + r;
    assert 2 * (h * q) == (2 * h) * q;
    assert x == (2 * h) * q + (2 * r + x % 2);
    DivModUnique(x, 2 * h, q, 2 * r + x % 2);
  }

  /**
   * The mirrored mapping: an address in [size, 2 size) names the same byte
   * as the address size lower. For addr < 2 size this is addr mod size.
   */
  function Mirror(addr: nat, size: nat): (r: nat)
    requires addr < 2 * size
    ensures r < size
    ensures r == addr % size
  {
    if addr < size then DivModUnique(addr, size, 0, addr); addr
    else DivModUnique(addr, size, 1, addr - size); addr - size
  }

  /** Stepping k further from a mirrored address is mirroring the address k further. */
  lemma MirrorAdd(a: nat, k: nat, size: nat)
    requires a + k < 2 * size && k < size
    ensures Mirror(a, size) + k < 2 * size
    ensures Mirror(Mirror(a, size) + k, size) == Mirror(a + k, size)
  {
  }

  /** Two offsets less than size apart from the same index mirror to different slots. */
  lemma MirrorDistinct(index: nat, j: nat, k: nat, size: nat)
    requires index < size && j < k < size
    ensures Mirror(index + j, size) != Mirror(index + k, size)
  {
  }

  // ---------------------------------------------------------------------
  // The buffer

  class CircularBuffer {
    var buffer: array<byte>
    var index: nat
    var length: nat
    var buffsize: nat

    /** The unconsumed bytes, oldest first. */
    ghost var Contents: seq<byte>
    ghost var Repr: set<object>

    ghost predicate Valid()
      reads this, Repr
    {
      Repr == {this, buffer} &&
      buffer.Length == buffsize &&
      buffsize <= TWO_63 &&
      (buffsize == 0 || (IsPowerOfTwo(buffsize) && buffsize >= PAGE_SIZE)) &&
      length <= buffsize &&
      (buffsize == 0 ==> index == 0) &&
      (buffsize > 0 ==> index < buffsize) &&
      |Contents| == length &&
      forall k :: 0 <= k < length ==> Contents[k] == buffer[Mirror(index + k, buffsize)]
    }

    /** The default constructor: no storage at all. */
    constructor Empty()
      ensures Valid() && fresh(Repr)
      ensures Contents == [] && buffsize == 0
    {
      buffer := new byte[0];
      index := 0;
      length := 0;
      buffsize := 0;
      Contents := [];
      Repr := {this, buffer};
    }

    /** A buffer whose capacity is initialCapacity rounded up by round_up_capacity. */
    constructor (initialCapacity: nat)
      requires initialCapacity < TWO_64
      ensures Valid() && fresh(Repr)
      ensures Contents == [] && buffsize == RoundUpCapacity(initialCapacity)
    {
      RoundUpCapacityMeaning(initialCapacity);
      var size := RoundUpCapacity(initialCapacity);
      buffer := new byte[size];
      index := 0;
      length := 0;
      buffsize := size;
      Contents := [];
      Repr := {this, buffer};
    }

    /** The copy constructor: same capacity, same contents, starting at index 0. */
    constructor Copy(other: CircularBuffer)
      requires other.Valid()
      ensures Valid() && fresh(Repr)
      ensures Contents == other.Contents && buffsize == other.buffsize && index == 0
    {
      var storage := new byte[other.buffsize];
      var i := 0;
      while i < other.length
        invariant 0 <= i <= other.length
        invariant forall k :: 0 <= k < i ==> storage[k] == other.Contents[k]
        modifies storage
      {
        storage[i] := other.buffer[Mirror(other.index + i, other.buffsize)];
        i := i + 1;
      }
      buffer := storage;
      index := 0;
      length := other.length;
      buffsize := other.buffsize;
      Contents := other.Contents;
      Repr := {this, storage};
    }

    function Capacity(): (r: nat)
      reads this
    {
      buffsize
    }

    function Size(): (r: nat)
      reads this, Repr
      requires Valid()
      ensures r == |Contents| && r <= Capacity()
    {
      length
    }

    /** operator[]: the i-th unconsumed byte. */
    method At(i: nat) returns (b: byte)
      requires Valid()
      requires i < |Contents|
      ensures b == Contents[i]
    {
      b := buffer[Mirror(index + i, buffsize)];
    }

    method Clear()
      requires Valid()
      modifies Repr
      ensures Valid() && Repr == old(Repr)
      ensures Contents == [] && buffsize == old(buffsize)
      ensures buffer == old(buffer) && unchanged(buffer)
    {
      index := 0;
      length := 0;
      Contents := [];
    }

    /**
     * consume: drops the first size bytes. The new index is computed with the
     * mask buffsize - 1, which is the remainder only because the capacity is a
     * power of two.
     */
    method Consume(size: nat)
      requires Valid()
      requires size <= |Contents|
      modifies Repr
      ensures Valid() && Repr == old(Repr)
      ensures Contents == old(Contents)[size..] && buffsize == old(buffsize)
      ensures buffer == old(buffer) && unchanged(buffer)
    {
      var next := BitAnd(index + size, Wrap64(buffsize - 1));
      if buffsize > 0 {
        assert Wrap64(buffsize - 1) == buffsize - 1;
        MaskIsRemainder(index + size, buffsize);
        assert next == Mirror(index + size, buffsize);
        forall k | 0 <= k < length - size
          ensures Contents[size..][k] == buffer[Mirror(next + k, buffsize)]
        {
          MirrorAdd(index + size, k, buffsize);
          assert Contents[size..][k] == Contents[size + k];
        }
      } else {
        assert index + size == 0;
      }
      index := next;
      length := length - size;
      Contents := Contents[size..];
    }

    /**
     * resize: moves the contents to a fresh buffer of the given capacity,
     * starting at index 0. The capacity must be a power of two of at least
     * one page, and must hold the current contents.
     */
    method Resize(size: nat)
      requires Valid()
      requires IsPowerOfTwo(size) && size >= PAGE_SIZE && size <= TWO_63
      requires size >= |Contents|
      modifies Repr
      ensures Valid() && fresh(buffer)
      ensures Contents == old(Contents) && buffsize == size && index == 0
    {
      var storage := new byte[size];
      var i := 0;
      while i < length
        invariant 0 <= i <= length
        invariant forall k :: 0 <= k < i ==> storage[k] == Contents[k]
        modifies storage
      {
        storage[i] := buffer[Mirror(index + i, buffsize)];
        i := i + 1;
      }
      buffer := storage;
      index := 0;
      buffsize := size;
      Repr := {this, storage};
    }

    /** Writes bytes after the contents, which must fit in the current capacity. */
    method AppendInPlace(bytes: seq<byte>)
      requires Valid()
      requires length + |bytes| <= buffsize
      modifies Repr
      ensures Valid() && Repr == old(Repr) && buffer == old(buffer)
      ensures Contents == old(Contents) + bytes && buffsize == old(buffsize)
    {
      var i := 0;
      while i < |bytes|
        invariant 0 <= i <= |bytes|
        modifies buffer
        invariant forall k :: 0 <= k < length + i ==> (Contents + bytes)[k] == buffer[Mirror(index + k, buffsize)]
      {
        buffer[Mirror(index + length + i, buffsize)] := bytes[i];
        forall k | 0 <= k < length + i + 1
          ensures (Contents + bytes)[k] == buffer[Mirror(index + k, buffsize)]
        {
          if k < length + i {
            MirrorDistinct(index, k, length + i, buffsize);
          }
        }
        i := i + 1;
      }
      length := length + |bytes|;
      Contents := Contents + bytes;
    }

    /**
     * insert_expanded: grows to max(2 * capacity, round_up_capacity(2 n)),
     * which always holds the old contents and the n new bytes, then appends.
     */
    method InsertExpanded(bytes: seq<byte>)
      requires Valid()
      requires |bytes| >= 1 && buffsize <= TWO_62 && |bytes| <= TWO_62
      modifies Repr
      ensures Valid() && fresh(buffer)
      ensures Contents == old(Contents) + bytes
      ensures buffsize == Max(2 * old(buffsize), RoundUpCapacity(2 * |bytes|))
      ensures buffsize >= old(|Contents|) + |bytes|
      ensures buffsize <= Max(2 * old(buffsize), Max(PAGE_SIZE, 4 * |bytes|))
    {
      RoundUpCapacityMeaning(2 * |bytes|);
      var rounded := RoundUpCapacity(2 * |bytes|);
      var newCapacity := Max(buffsize * 2, rounded);
      if buffsize > 0 {
        PowerOfTwoDoubles(buffsize);
      }
      Resize(newCapacity);
      AppendInPlace(bytes);
    }

    /** push_back: appends one byte, growing when the buffer is full. */
    method PushBack(b: byte)
      requires Valid()
      requires buffsize <= TWO_62
      modifies Repr
      ensures Valid() && fresh(Repr - old(Repr))
      ensures Contents == old(Contents) + [b]
      ensures buffsize <= Max(old(buffsize), Max(PAGE_SIZE, 4 * (old(|Contents|) + 1)))
      ensures old(length) < old(buffsize) ==> buffsize == old(buffsize)
    {
      if length == buffsize {
        InsertExpanded([b]);
      } else {
        buffer[Mirror(index + length, buffsize)] := b;
        length := length + 1;
        Contents := Contents + [b];
      }
    }

    /** insert: appends bytes, growing only when they do not fit in the free space. */
    method Insert(bytes: seq<byte>)
      requires Valid()
      requires buffsize <= TWO_62 && |bytes| <= TWO_62
      modifies Repr
      ensures Valid() && fresh(Repr - old(Repr))
      ensures Contents == old(Contents) + bytes
      ensures buffsize <= Max(old(buffsize), Max(PAGE_SIZE, 4 * (old(|Contents|) + |bytes|)))
      ensures |bytes| <= old(buffsize) - old(length) ==> buffsize == old(buffsize)
    {
      var remaining := buffsize - length;
      if |bytes| > remaining {
        InsertExpanded(bytes);
      } else {
        AppendInPlace(bytes);
      }
    }

    /** reserve: afterwards the capacity is at least newCapacity and the contents are unchanged. */
    method Reserve(newCapacity: nat)
      requires Valid()
      requires newCapacity <= TWO_63
      modifies Repr
      ensures Valid() && fresh(Repr - old(Repr))
      ensures Contents == old(Contents)
      ensures buffsize >= newCapacity
      ensures newCapacity <= old(buffsize) ==> buffsize == old(buffsize)
    {
      if newCapacity > buffsize {
        RoundUpCapacityMeaning(newCapacity);
        Resize(RoundUpCapacity(newCapacity));
      }
    }

    /**
     * Copy assignment. When the contents of other do not fit, the capacity is
     * set with round_up_capacity, so it stays a power of two (see
     * CopyAssignAsWritten for the page rounding the C++ code uses).
     * Self-assignment is excluded: the C++ code sets the index to 0 before
     * copying from other.data(), so a = a with a non-zero index would copy
     * from the wrong offset.
     */
    method AssignFrom(other: CircularBuffer)
      requires Valid() && other.Valid()
      requires Repr !! other.Repr
      modifies Repr
      ensures Valid() && fresh(Repr - old(Repr))
      ensures Contents == old(other.Contents) && index == 0
      ensures buffsize == (if old(buffsize) < |other.Contents| then RoundUpCapacity(|other.Contents|) else old(buffsize))
    {
      if buffsize < other.length {
        RoundUpCapacityMeaning(other.length);
        Reallocate(RoundUpCapacity(other.length));
      }
      CopyIn(other);
    }

    /** Replaces the storage by a fresh, empty one of the given capacity. */
    method Reallocate(size: nat)
      requires IsPowerOfTwo(size) && size >= PAGE_SIZE && size <= TWO_63
      modifies this
      ensures Valid() && fresh(buffer)
      ensures Contents == [] && buffsize == size && index == 0
    {
      buffsize := size;
      buffer := new byte[size];
      Repr := {this, buffer};
      index := 0;
      length := 0;
      Contents := [];
    }

    /** memcpy(buffer, other.data(), other.length): the contents of other, from index 0. */
    method CopyIn(other: CircularBuffer)
      requires Valid() && other.Valid()
      requires Repr !! other.Repr
      requires |other.Contents| <= buffsize
      modifies Repr
      ensures Valid() && Repr == old(Repr) && buffer == old(buffer)
      ensures Contents == other.Contents && index == 0 && buffsize == old(buffsize)
    {
      var i := 0;
      while i < other.length
        invariant 0 <= i <= other.length
        invariant forall k :: 0 <= k < i ==> buffer[k] == other.Contents[k]
        modifies buffer
      {
        buffer[i] := other.buffer[Mirror(other.index + i, other.buffsize)];
        i := i + 1;
      }
      index := 0;
      length := other.length;
      Contents := other.Contents;
    }

    /** The move constructor: takes over the storage of other and leaves it empty. */
    constructor Move(other: CircularBuffer)
      requires other.Valid()
      modifies other
      ensures Valid() && other.Valid()
      ensures Contents == old(other.Contents) && buffsize == old(other.buffsize)
      ensures buffer == old(other.buffer)
      ensures other.Contents == [] && other.buffsize == 0
    {
      buffer := other.buffer;
      index := other.index;
      length := other.length;
      buffsize := other.buffsize;
      Contents := other.Contents;
      Repr := {this, other.buffer};
      new;
      other.Release();
    }

    /** Move assignment: releases the own storage, takes over that of other, leaves other empty. */
    method MoveFrom(other: CircularBuffer)
      requires Valid() && other.Valid()
      requires other != this
      modifies this, other
      ensures Valid() && other.Valid()
      ensures Contents == old(other.Contents) && buffsize == old(other.buffsize)
      ensures buffer == old(other.buffer)
      ensures other.Contents == [] && other.buffsize == 0
    {
      buffer := other.buffer;
      index := other.index;
      length := other.length;
      buffsize := other.buffsize;
      Contents := other.Contents;
      Repr := {this, other.buffer};
      other.Release();
    }

    /** Leaves this buffer without storage, as a moved-from buffer is left. */
    method Release()
      modifies this
      ensures Valid() && fresh(buffer)
      ensures Contents == [] && buffsize == 0
    {
      buffer := new byte[0];
      index := 0;
      length := 0;
      buffsize := 0;
      Contents := [];
      Repr := {this, buffer};
    }
  }

  // ---------------------------------------------------------------------
  // Copy assignment as the C++ code writes it

  /**
   * A circular buffer as the C++ code keeps it, without the power-of-two
   * guarantee: the storage (its length is buffsize) seen through the
   * mirrored mapping, the index of the first byte and the length.
   */
  datatype RingAsWritten = RingAsWritten(storage: seq<byte>, index: nat, length: nat)

  predicate RingShape(r: RingAsWritten)
  {
    0 < |r.storage| && r.index < |r.storage| && r.length <= |r.storage|
  }

  /**
   * operator= when other's bytes do not fit: fresh zero-filled storage of
   * mach_vm_round_page(other.length) bytes for a page size of page bytes,
   * other's bytes copied from index 0.
   */
  function CopyAssignAsWritten(page: nat, other: seq<byte>): (r: RingAsWritten)
    requires page > 0 && 0 < |other| && |other| + page <= TWO_64
    ensures RingShape(r) && r.index == 0 && r.length == |other| && r.storage[..|other|] == other
  {
    var cap := Wrap64((|other| + page - 1) / page * page);
    RingAsWritten(other + seq(cap - |other|, _ => 0), 0, |other|)
  }

  /** consume as written: index = (index + size) & (buffsize - 1). */
  function ConsumeAsWritten(r: RingAsWritten, size: nat): (t: RingAsWritten)
    requires RingShape(r) && size <= r.length
    ensures RingShape(t) && t.storage == r.storage && t.length == r.length - size
  {
    RingAsWritten(r.storage, BitAnd(r.index + size, Wrap64(|r.storage| - 1)), r.length - size)
  }

  /** One byte stored at the end of the contents, through the mirror. */
  function PushAsWritten(r: RingAsWritten, b: byte): (t: RingAsWritten)
    requires RingShape(r) && r.length < |r.storage|
    ensures RingShape(t) && |t.storage| == |r.storage| && t.index == r.index && t.length == r.length + 1
  {
    r.(storage := r.storage[Mirror(r.index + r.length, |r.storage|) := b], length := r.length + 1)
  }

  /** insert when the bytes fit: the memcpy to end(), byte by byte. */
  function InsertAsWritten(r: RingAsWritten, bytes: seq<byte>): (t: RingAsWritten)
    requires RingShape(r) && r.length + |bytes| <= |r.storage|
    ensures RingShape(t) && |t.storage| == |r.storage| && t.index == r.index && t.length == r.length + |bytes|
    decreases |bytes|
  {
    if |bytes| == 0 then r else InsertAsWritten(PushAsWritten(r, bytes[0]), bytes[1..])
  }

  /** operator[]: byte i of the contents. */
  function ReadAsWritten(r: RingAsWritten, i: nat): byte
    requires RingShape(r) && i < r.length
  {
    r.storage[Mirror(r.index + i, |r.storage|)]
  }

  /** Bytes that do not reach the end of the storage are written in one piece from the end of the contents. */
  lemma {:induction false} InsertWritesFrom(r: RingAsWritten, bytes: seq<byte>)
    requires RingShape(r) && r.length + |bytes| <= |r.storage|
    requires Mirror(r.index + r.length, |r.storage|) + |bytes| <= |r.storage|
    ensures var at, t := Mirror(r.index + r.length, |r.storage|), InsertAsWritten(r, bytes);
      forall j :: 0 <= j < |r.storage| ==>
        t.storage[j] == if at <= j < at + |bytes| then bytes[j - at] else r.storage[j]
    decreases |bytes|
  {
    if |bytes| > 0 {
      var n := |r.storage|;
      var at := Mirror(r.index + r.length, n);
      var t := PushAsWritten(r, bytes[0]);
      if |bytes| > 1 {
        MirrorAdd(r.index + r.length, 1, n);
        assert Mirror(t.index + t.length, n) == at + 1;
      }
      InsertWritesFrom(t, bytes[1..]);
      assert InsertAsWritten(r, bytes) == InsertAsWritten(t, bytes[1..]);
      assert t.storage == r.storage[at := bytes[0]];
      forall j | 0 <= j < n
        ensures InsertAsWritten(r, bytes).storage[j] == if at <= j < at + |bytes| then bytes[j - at] else r.storage[j]
      {
        var at1 := Mirror(t.index + t.length, n);
        assert InsertAsWritten(t, bytes[1..]).storage[j] ==
          if at1 <= j < at1 + |bytes[1..]| then bytes[1..][j - at1] else t.storage[j];
        if at < j < at + |bytes| {
          assert bytes[1..][j - (at + 1)] == bytes[j - at];
        }
      }
    }
  }

  /**
   * For any page size P that is a power of two (4 KiB or 16 KiB alike):
   * assigning a 3P-byte buffer to a smaller one gives capacity 3P, not a
   * power of two. Consume 2P bytes, insert P new bytes (they fit, and land
   * at the start of the storage), consume P: the index lands on 2P instead
   * of 0, so the P bytes the buffer now holds are read from the storage
   * already consumed instead of the new ones.
   */
  lemma CopyAssignBreaksConsume(k: nat, other: seq<byte>, later: seq<byte>)
    requires |other| == 3 * Pow2(k) && |later| == Pow2(k) && 4 * Pow2(k) <= TWO_64
    ensures var p := Pow2(k);
      var r0 := CopyAssignAsWritten(p, other);
      var r3 := ConsumeAsWritten(InsertAsWritten(ConsumeAsWritten(r0, 2 * p), later), p);
      |r0.storage| == 3 * p && !IsPowerOfTwo(|r0.storage|) &&
      r3.length == p && r3.index == 2 * p && (3 * p) % |r0.storage| == 0 &&
      forall i :: 0 <= i < p ==> ReadAsWritten(r3, i) == other[2 * p + i]
  {
    var p := Pow2(k);
    CopyThreePages(p, other);
    ThreeTimesNotPowerOfTwo(k);
    ConsumeInThreePages(k, other, 0, 3 * p, 2 * p);
    InsertThenConsume(k, other, later);
    DivModUnique(3 * p, 3 * p, 1, 0);
  }

  /**
   * The second half of the scenario: with the index on the third page and
   * one page live, the new page is written at the start of the storage and
   * the next consume leaves the index on the third page again.
   */
  lemma InsertThenConsume(k: nat, other: seq<byte>, later: seq<byte>)
    requires |other| == 3 * Pow2(k) && |later| == Pow2(k) && 4 * Pow2(k) <= TWO_64
    ensures var p := Pow2(k);
      var r3 := ConsumeAsWritten(InsertAsWritten(RingAsWritten(other, 2 * p, p), later), p);
      r3.length == p && r3.index == 2 * p &&
      forall i :: 0 <= i < p ==> ReadAsWritten(r3, i) == other[2 * p + i]
  {
    var p := Pow2(k);
    var r2 := InsertAsWritten(RingAsWritten(other, 2 * p, p), later);
    InsertKeepsUpperPages(p, other, later);
    var r3 := ConsumeAsWritten(r2, p);
    ConsumeInThreePages(k, r2.storage, 2 * p, 2 * p, p);
    forall i | 0 <= i < p ensures ReadAsWritten(r3, i) == other[2 * p + i] {
      assert Mirror(2 * p + i, 3 * p) == 2 * p + i;
    }
  }

  /** The page inserted behind the last live page wraps to the first page; the other two pages keep their bytes. */
  lemma InsertKeepsUpperPages(p: nat, other: seq<byte>, later: seq<byte>)
    requires p > 0 && |other| == 3 * p && |later| == p
    ensures forall j :: p <= j < 3 * p ==> InsertAsWritten(RingAsWritten(other, 2 * p, p), later).storage[j] == other[j]
  {
    assert Mirror(3 * p, 3 * p) == 0;
    InsertWritesFrom(RingAsWritten(other, 2 * p, p), later);
  }

  /** In three pages, both consumes of the scenario leave the index on the third page. */
  lemma ConsumeInThreePages(k: nat, storage: seq<byte>, index: nat, length: nat, n: nat)
    requires |storage| == 3 * Pow2(k) && 4 * Pow2(k) <= TWO_64
    requires index + n == 2 * Pow2(k) || index + n == 3 * Pow2(k)
    requires index < |storage| && n <= length <= |storage|
    ensures ConsumeAsWritten(RingAsWritten(storage, index, length), n) == RingAsWritten(storage, 2 * Pow2(k), length - n)
  {
    ThreePagesMask(k);
    assert Wrap64(|storage| - 1) == 3 * Pow2(k) - 1;
  }

  /** Copy assignment of three whole pages: the capacity is exactly three pages. */
  lemma CopyThreePages(p: nat, other: seq<byte>)
    requires p > 0 && |other| == 3 * p && 4 * p <= TWO_64
    ensures CopyAssignAsWritten(p, other) == RingAsWritten(other, 0, 3 * p)
  {
    DivModUnique(3 * p + p - 1, p, 3, p - 1);
    assert Wrap64((3 * p + p - 1) / p * p) == 3 * p;
    assert other + seq(0, _ => 0) == other;
  }

  /** Three times a power of two is not a power of two. */
  lemma {:induction false} ThreeTimesNotPowerOfTwo(k: nat)
    ensures !IsPowerOfTwo(3 * Pow2(k))
  {
    if k > 0 {
      ThreeTimesNotPowerOfTwo(k - 1);
      assert (3 * Pow2(k)) / 2 == 3 * Pow2(k - 1);
    }
  }

  /** With three pages of size P, masking 2P and 3P with 3P - 1 both give 2P. */
  lemma {:induction false} ThreePagesMask(k: nat)
    ensures BitAnd(3 * Pow2(k), 3 * Pow2(k) - 1) == 2 * Pow2(k)
    ensures BitAnd(2 * Pow2(k), 3 * Pow2(k) - 1) == 2 * Pow2(k)
  {
    if k == 0 {
      assert BitAnd(1, 1) == 1 && BitAnd(0, 0) == 0 && BitAnd(1, 0) == 0;
    } else {
      var p := Pow2(k - 1);
      assert Pow2(k) == 2 * p;
      var three, two, mask := 3 * p, 2 * p, 3 * p - 1;
      ThreePagesMask(k - 1);
      MaskDouble(three, mask);
      MaskDouble(two, mask);
      assert 3 * Pow2(k) == 2 * three && 2 * Pow2(k) == 2 * two && 3 * Pow2(k) - 1 == 2 * mask + 1;
    }
  }

  /** Appending a zero bit to one operand and a one bit to the other appends a zero bit to the mask. */
  lemma MaskDouble(a: nat, b: nat)
    requires a > 0
    ensures BitAnd(2 * a, 2 * b + 1) == 2 * BitAnd(a, b)
  {
    assert (2 * a) / 2 == a && (2 * b + 1) / 2 == b && (2 * a) % 2 == 0;
  }

  /**
   * A first-in first-out run: inserting a, then b, consuming |a| bytes and
   * inserting c leaves exactly b + c, however the buffer grew on the way.
   */
  method FifoScenario(initialCapacity: nat, a: seq<byte>, b: seq<byte>, c: seq<byte>) returns (out: seq<byte>)
    requires initialCapacity <= TWO_60
    requires |a| + |b| + |c| <= TWO_60
    ensures out == b + c
  {
    var buf := new CircularBuffer(initialCapacity);
    RoundUpCapacityMeaning(initialCapacity);
    buf.Insert(a);
    buf.Insert(b);
    buf.Consume(|a|);
    assert buf.Contents == b;
    buf.Insert(c);
    out := ReadAll(buf);
  }

  /**
   * The run that goes wrong as written (CopyAssignBreaksConsume), on the
   * buffer with the corrected copy assignment: assign other to a one-page
   * buffer, consume n bytes, insert later, consume the rest of other. What
   * is left is exactly later.
   */
  method AssignScenario(other: seq<byte>, n: nat, later: seq<byte>) returns (out: seq<byte>)
    requires n <= |other| && |other| + |later| <= TWO_60
    ensures out == later
  {
    var src := Holding(other);
    var buf := AssignedToPage(src);
    buf.Consume(n);
    assert buf.Contents == other[n..];
    buf.Insert(later);
    buf.Consume(|other| - n);
    assert buf.Contents == later;
    out := ReadAll(buf);
  }

  /** A new buffer holding bytes. */
  method Holding(bytes: seq<byte>) returns (buf: CircularBuffer)
    requires |bytes| <= TWO_60
    ensures buf.Valid() && fresh(buf.Repr) && buf.Contents == bytes
  {
    buf := new CircularBuffer(0);
    RoundUpCapacityMeaning(0);
    buf.Insert(bytes);
  }

  /** A new one-page buffer assigned a copy of other. */
  method AssignedToPage(other: CircularBuffer) returns (buf: CircularBuffer)
    requires other.Valid() && |other.Contents| <= TWO_60
    ensures buf.Valid() && fresh(buf.Repr) && buf.Contents == other.Contents && buf.buffsize <= TWO_62
  {
    buf := new CircularBuffer(PAGE_SIZE);
    RoundUpCapacityMeaning(PAGE_SIZE);
    RoundUpCapacityMeaning(|other.Contents|);
    buf.AssignFrom(other);
  }

  /** Every byte of the buffer, front to back, through operator[]. */
  method ReadAll(buf: CircularBuffer) returns (out: seq<byte>)
    requires buf.Valid()
    ensures out == buf.Contents
  {
    out := [];
    var i := 0;
    while i < buf.Size()
      invariant 0 <= i <= |buf.Contents| && out == buf.Contents[..i]
    {
      var x := buf.At(i);
      out := out + [x];
      i := i + 1;
    }
  }
}
