// The MessagePack encoder: the byte strings each pack operation appends
// (the shortest form of the int, str, array and map format families), and
// the packer object that appends them to its circular buffer.

module Packing {
  import opened Common
  import opened Wire
  import opened CircularBuffers

  // ---------------------------------------------------------------------
  // What each operation writes

  /**
   * pack_numeric_impl: the prefix, then the value converted to a width-byte
   * type (two's complement for negative values), most significant byte first.
   */
  function Numeric(prefix: byte, width: nat, v: int): (r: seq<byte>)
    ensures |r| == width + 1 && r[0] == prefix
    ensures BigEndian(r[1..]) == v % Pow256(width)
  {
    var payload := ToBigEndian(v % Pow256(width), width);
    BigEndianRoundTrip(v % Pow256(width), width);
    assert ([prefix] + payload)[1..] == payload;
    [prefix] + payload
  }

  /** pack_uint64: a positive fixint below 128, else the narrowest of uint 8/16/32/64. */
  function EncodeUint(v: u64): seq<byte>
  {
    if v < 128 then [v]
    else if v <= 0xff then Numeric(0xcc, 1, v)
    else if v <= 0xffff then Numeric(0xcd, 2, v)
    else if v <= 0xffff_ffff then Numeric(0xce, 4, v)
    else Numeric(0xcf, 8, v)
  }

  /** The uint format holds v exactly, and no narrower member of its family could. */
  lemma EncodeUintForm(v: u64)
    ensures var r := EncodeUint(v);
      && (|r| == 1 <==> v < 128)
      && (|r| == 1 ==> r == [v])
      && (|r| > 1 ==> |r| - 1 in {1, 2, 4, 8} && r[0] == 0xcb + (if |r| == 2 then 1 else if |r| == 3 then 2 else if |r| == 5 then 3 else 4))
      && (|r| > 1 ==> BigEndian(r[1..]) == v)
      && (|r| > 2 ==> v >= Pow256((|r| - 1) / 2))
  {
    Pow256Values();
    if v < 128 {
    } else if v <= 0xff {
      assert v % Pow256(1) == v;
    } else if v <= 0xffff {
      assert v % Pow256(2) == v;
    } else if v <= 0xffff_ffff {
      assert v % Pow256(4) == v;
    } else {
      assert v % Pow256(8) == v;
    }
  }

  /**
   * pack_int64: non-negative values as pack_uint64; a negative fixint for
   * -32..-1; else the narrowest of int 8/16/32/64.
   */
  function EncodeInt(v: int): seq<byte>
  {
    if v >= 0 then EncodeUint(Wrap64(v))
    else if v >= -32 then [v + 0x100]
    else if v >= -0x80 then Numeric(0xd0, 1, v)
    else if v >= -0x8000 then Numeric(0xd1, 2, v)
    else if v >= -0x8000_0000 then Numeric(0xd2, 4, v)
    else Numeric(0xd3, 8, v)
  }

  /** The int format holds v exactly in two's complement, and no narrower member of its family could. */
  lemma EncodeIntForm(v: int)
    requires FitsSigned(v, 64)
    ensures var r := EncodeInt(v);
      && (v >= 0 ==> r == EncodeUint(v))
      && (-32 <= v < 0 ==> r == [v + 0x100])
      && (v < -32 ==> |r| - 1 in {1, 2, 4, 8} && r[0] == 0xcf + (if |r| == 2 then 1 else if |r| == 3 then 2 else if |r| == 5 then 3 else 4))
      && (v < -32 ==> SignedOfPayload(r) == v)
      && (v < -32 && |r| > 2 ==> 2 * v + Pow256((|r| - 1) / 2) < 0)
  {
    Pow256Values();
    if v >= -32 {
    } else if v >= -0x80 {
      NegativePayload(0xd0, v, 1);
    } else if v >= -0x8000 {
      NegativePayload(0xd1, v, 2);
    } else if v >= -0x8000_0000 {
      NegativePayload(0xd2, v, 4);
    } else {
      NegativePayload(0xd3, v, 8);
    }
  }

  /** A negative value that fits the width is read back from its packed payload. */
  lemma NegativePayload(prefix: byte, v: int, width: nat)
    requires width >= 1 && 2 * v < 0 && 2 * v + Pow256(width) >= 0
    ensures SignedOfPayload(Numeric(prefix, width, v)) == v
  {
    var r := Numeric(prefix, width, v);
    ModNegative(v, Pow256(width));
    assert BigEndian(r[1..]) == v + Pow256(width);
  }

  /** The two's complement value of the bytes after the prefix. */
  function SignedOfPayload(r: seq<byte>): int
    requires |r| >= 1
  {
    var v := BigEndian(r[1..]);
    if 2 * v >= Pow256(|r| - 1) then v - Pow256(|r| - 1) else v
  }

  /** The header of a string of n bytes: fixstr up to 31, then str 8/16/32 (the length cast to 32 bits). */
  function StrHeader(n: nat): seq<byte>
  {
    if n <= 31 then [0xa0 + n]
    else if n <= 0xff then Numeric(0xd9, 1, n)
    else if n <= 0xffff then Numeric(0xda, 2, n)
    else Numeric(0xdb, 4, n)
  }

  /** The str header holds the length (modulo 2^32), and no narrower one could. */
  lemma StrHeaderForm(n: nat)
    ensures var r := StrHeader(n);
      && |r| in {1, 2, 3, 5}
      && (|r| == 1 <==> n <= 31)
      && (|r| == 1 ==> r[0] == 0xa0 + n)
      && (|r| > 1 ==> BigEndian(r[1..]) == n % Pow256(|r| - 1))
      && (|r| > 1 ==> r[0] == 0xd8 + (if |r| == 2 then 1 else if |r| == 3 then 2 else 3))
      && (|r| > 2 ==> n >= Pow256((|r| - 1) / 2))
  {
    Pow256Values();
  }

  /** pack_string: the header, then the bytes unchanged. */
  function EncodeStr(s: seq<byte>): (r: seq<byte>)
    ensures r == StrHeader(|s|) + s
    ensures r[|r| - |s|..] == s
  {
    StrHeader(|s|) + s
  }

  /** The 0x90 | n, 0xdc, 0xdd (array) or 0x80 | n, 0xde, 0xdf (map) header of n elements. */
  function ContainerHeader(isMap: bool, n: nat): seq<byte>
    requires n < TWO_32
  {
    if n <= 15 then [(if isMap then 0x80 else 0x90) + n]
    else if n <= 0xffff then Numeric(if isMap then 0xde else 0xdc, 2, n)
    else Numeric(if isMap then 0xdf else 0xdd, 4, n)
  }

  /** The array or map header holds the count, and no narrower one could. */
  lemma ContainerHeaderForm(isMap: bool, n: nat)
    requires n < TWO_32
    ensures var r := ContainerHeader(isMap, n);
      && |r| in {1, 3, 5}
      && (|r| == 1 <==> n <= 15)
      && (|r| == 1 ==> r[0] == (if isMap then 0x80 else 0x90) + n)
      && (|r| > 1 ==> BigEndian(r[1..]) == n)
      && (|r| > 1 ==> r[0] == (if isMap then 0xde else 0xdc) + (if |r| == 3 then 0 else 1))
      && (|r| == 5 ==> n > 0xffff)
  {
    Pow256Values();
  }

  /** pack_bool: 0xc2 for false, 0xc3 for true. */
  function EncodeBool(b: bool): (r: seq<byte>)
    ensures |r| == 1 && (r[0] == 0xc3 <==> b) && r[0] in {0xc2, 0xc3}
  {
    [0xc2 + (if b then 1 else 0)]
  }

  const NIL: seq<byte> := [0xc0]

  /** int64_t. */
  newtype i64 = x: int | -0x8000_0000_0000_0000 <= x < 0x8000_0000_0000_0000

  /** The values the generic pack accepts (floats are left out). */
  datatype Value =
    | Nil
    | Bool(b: bool)
    | Uint(u: u64)
    | Int(i: i64)
    | Bytes(s: seq<byte>)
    | List(items: seq<Value>)
    | Dict(entries: seq<Entry>)

  /** A key-value pair of a map-like container. */
  datatype Entry = Entry(key: Value, val: Value)

  /**
   * pack: the overload chosen by the value's type. Containers write their
   * size cast to 32 bits, then their elements (a map: key, value, ...).
   */
  function Encode(v: Value): seq<byte>
  {
    match v
    case Nil => NIL
    case Bool(b) => EncodeBool(b)
    case Uint(u) => EncodeUint(u)
    case Int(i) => EncodeInt(i as int)
    case Bytes(s) => EncodeStr(s)
    case List(items) => ContainerHeader(false, |items| % TWO_32) + EncodeAll(items)
    case Dict(entries) => ContainerHeader(true, |entries| % TWO_32) + EncodeEntries(entries)
  }

  function EncodeAll(items: seq<Value>): seq<byte>
  {
    if |items| == 0 then [] else Encode(items[0]) + EncodeAll(items[1..])
  }

  function EncodeEntries(entries: seq<Entry>): seq<byte>
  {
    if |entries| == 0 then [] else EncodeEntry(entries[0]) + EncodeEntries(entries[1..])
  }

  function EncodeEntry(e: Entry): seq<byte>
  {
    Encode(e.key) + Encode(e.val)
  }

  /** Packing one more element appends its encoding. */
  lemma {:induction false} EncodeAllSnoc(items: seq<Value>, i: nat)
    requires i < |items|
    ensures EncodeAll(items[..i + 1]) == EncodeAll(items[..i]) + Encode(items[i])
    ensures |EncodeAll(items[..i + 1])| <= |EncodeAll(items)|
    decreases i
  {
    if i == 0 {
      assert items[..1][1..] == [];
      EncodeAllLength(items, 1);
    } else {
      EncodeAllSnoc(items[1..], i - 1);
      assert items[1..][..i] == items[..i + 1][1..];
      assert items[1..][..i - 1] == items[..i][1..];
      assert items[..i + 1][0] == items[..i][0] == items[0];
      EncodeAllLength(items, i + 1);
    }
  }

  /** The encoding of a prefix of the elements is no longer than that of all of them. */
  lemma {:induction false} EncodeAllLength(items: seq<Value>, i: nat)
    requires i <= |items|
    ensures |EncodeAll(items[..i])| <= |EncodeAll(items)|
    decreases i
  {
    if i > 0 {
      EncodeAllLength(items[1..], i - 1);
      assert items[1..][..i - 1] == items[..i][1..];
    }
  }

  lemma {:induction false} EncodeEntriesSnoc(entries: seq<Entry>, i: nat)
    requires i < |entries|
    ensures EncodeEntries(entries[..i + 1]) == EncodeEntries(entries[..i]) + EncodeEntry(entries[i])
    ensures |EncodeEntries(entries[..i + 1])| <= |EncodeEntries(entries)|
    decreases i
  {
    if i == 0 {
      assert entries[..1][1..] == [];
      EncodeEntriesLength(entries, 1);
    } else {
      EncodeEntriesSnoc(entries[1..], i - 1);
      assert entries[1..][..i] == entries[..i + 1][1..];
      assert entries[1..][..i - 1] == entries[..i][1..];
      assert entries[..i + 1][0] == entries[..i][0] == entries[0];
      EncodeEntriesLength(entries, i + 1);
    }
  }

  lemma {:induction false} EncodeEntriesLength(entries: seq<Entry>, i: nat)
    requires i <= |entries|
    ensures |EncodeEntries(entries[..i])| <= |EncodeEntries(entries)|
    decreases i
  {
    if i > 0 {
      EncodeEntriesLength(entries[1..], i - 1);
      assert entries[1..][..i - 1] == entries[..i][1..];
    }
  }

  // ---------------------------------------------------------------------
  // The packer object

  /** Room left before the buffer could outgrow what its capacity arithmetic allows. */
  const PACK_LIMIT: nat := TWO_60

  class Packer {
    var buffer: CircularBuffer
    ghost var Repr: set<object>

    ghost predicate Valid()
      reads this, Repr
    {
      this in Repr && buffer in Repr && buffer.Repr <= Repr && this !in buffer.Repr &&
      buffer.Valid() && buffer.buffsize <= TWO_62
    }

    /** The packed, unconsumed bytes. */
    ghost function Contents(): seq<byte>
      reads this, buffer
    {
      buffer.Contents
    }

    /** packer(): a buffer of initial capacity 4096. */
    constructor ()
      ensures Valid() && fresh(Repr) && Contents() == []
    {
      buffer := new CircularBuffer(PAGE_SIZE);
      new;
      RoundUpCapacityMeaning(PAGE_SIZE);
      Repr := {this} + buffer.Repr;
    }

    /** Appends bytes to the buffer. */
    method Append(bytes: seq<byte>)
      requires Valid() && |Contents()| + |bytes| <= PACK_LIMIT
      modifies Repr
      ensures Valid() && fresh(Repr - old(Repr))
      ensures Contents() == old(Contents()) + bytes
    {
      buffer.Insert(bytes);
      Repr := Repr + buffer.Repr;
    }

    /** Appends one byte to the buffer. */
    method Put(b: byte)
      requires Valid() && |Contents()| < PACK_LIMIT
      modifies Repr
      ensures Valid() && fresh(Repr - old(Repr))
      ensures Contents() == old(Contents()) + [b]
    {
      buffer.PushBack(b);
      Repr := Repr + buffer.Repr;
    }

    /** size(): the number of unconsumed bytes. */
    function Size(): (r: nat)
      reads Repr
      requires Valid()
      ensures r == |Contents()|
    {
      buffer.Size()
    }

    /** consume: drops the first n packed bytes once they have been written out. */
    method Consume(n: nat)
      requires Valid() && n <= |Contents()|
      modifies Repr
      ensures Valid() && Repr == old(Repr)
      ensures Contents() == old(Contents())[n..]
    {
      buffer.Consume(n);
    }

    method Clear()
      requires Valid()
      modifies Repr
      ensures Valid() && Repr == old(Repr)
      ensures Contents() == []
    {
      buffer.Clear();
    }

    method PackNumeric(prefix: byte, width: nat, v: int)
      requires width in {1, 2, 4, 8}
      requires Valid() && |Contents()| + width + 1 <= PACK_LIMIT
      modifies Repr
      ensures Valid() && fresh(Repr - old(Repr))
      ensures Contents() == old(Contents()) + Numeric(prefix, width, v)
    {
      Append(Numeric(prefix, width, v));
    }

    method PackUint64(v: u64)
      requires Valid() && |Contents()| + |EncodeUint(v)| <= PACK_LIMIT
      modifies Repr
      ensures Valid() && fresh(Repr - old(Repr))
      ensures Contents() == old(Contents()) + EncodeUint(v)
    {
      if v < 128 {
        Put(v);
      } else if v <= 0xff {
        PackNumeric(0xcc, 1, v);
      } else if v <= 0xffff {
        PackNumeric(0xcd, 2, v);
      } else if v <= 0xffff_ffff {
        PackNumeric(0xce, 4, v);
      } else {
        PackNumeric(0xcf, 8, v);
      }
    }

    method PackInt64(v: int)
      requires FitsSigned(v, 64)
      requires Valid() && |Contents()| + |EncodeInt(v)| <= PACK_LIMIT
      modifies Repr
      ensures Valid() && fresh(Repr - old(Repr))
      ensures Contents() == old(Contents()) + EncodeInt(v)
    {
      if v >= 0 {
        PackUint64(v);
      } else if v >= -32 {
        Put(v + 0x100);
      } else if v >= -0x80 {
        PackNumeric(0xd0, 1, v);
      } else if v >= -0x8000 {
        PackNumeric(0xd1, 2, v);
      } else if v >= -0x8000_0000 {
        PackNumeric(0xd2, 4, v);
      } else {
        PackNumeric(0xd3, 8, v);
      }
    }

    method PackString(s: seq<byte>)
      requires Valid() && |Contents()| + |EncodeStr(s)| <= PACK_LIMIT
      modifies Repr
      ensures Valid() && fresh(Repr - old(Repr))
      ensures Contents() == old(Contents()) + EncodeStr(s)
    {
      PackStrHeader(|s|);
      Append(s);
    }

    method PackStrHeader(n: nat)
      requires Valid() && |Contents()| + |StrHeader(n)| <= PACK_LIMIT
      modifies Repr
      ensures Valid() && fresh(Repr - old(Repr))
      ensures Contents() == old(Contents()) + StrHeader(n)
    {
      if n <= 31 {
        Put(0xa0 + n);
      } else if n <= 0xff {
        PackNumeric(0xd9, 1, n);
      } else if n <= 0xffff {
        PackNumeric(0xda, 2, n);
      } else {
        PackNumeric(0xdb, 4, n);
      }
    }

    method PackBool(b: bool)
      requires Valid() && |Contents()| < PACK_LIMIT
      modifies Repr
      ensures Valid() && fresh(Repr - old(Repr))
      ensures Contents() == old(Contents()) + EncodeBool(b)
    {
      Put(0xc2 + (if b then 1 else 0));
    }

    method PackNull()
      requires Valid() && |Contents()| < PACK_LIMIT
      modifies Repr
      ensures Valid() && fresh(Repr - old(Repr))
      ensures Contents() == old(Contents()) + NIL
    {
      Put(0xc0);
    }

    /** start_array: must be followed by packing n objects. */
    method StartArray(n: nat)
      requires n < TWO_32
      requires Valid() && |Contents()| + |ContainerHeader(false, n)| <= PACK_LIMIT
      modifies Repr
      ensures Valid() && fresh(Repr - old(Repr))
      ensures Contents() == old(Contents()) + ContainerHeader(false, n)
    {
      if n <= 15 {
        Put(0x90 + n);
      } else if n <= 0xffff {
        PackNumeric(0xdc, 2, n);
      } else {
        PackNumeric(0xdd, 4, n);
      }
    }

    /** start_map: must be followed by packing 2n objects, key then value. */
    method StartMap(n: nat)
      requires n < TWO_32
      requires Valid() && |Contents()| + |ContainerHeader(true, n)| <= PACK_LIMIT
      modifies Repr
      ensures Valid() && fresh(Repr - old(Repr))
      ensures Contents() == old(Contents()) + ContainerHeader(true, n)
    {
      if n <= 15 {
        Put(0x80 + n);
      } else if n <= 0xffff {
        PackNumeric(0xde, 2, n);
      } else {
        PackNumeric(0xdf, 4, n);
      }
    }

    /** pack: one value, by its type. */
    method Pack(v: Value)
      requires Valid() && |Contents()| + |Encode(v)| <= PACK_LIMIT
      modifies Repr
      ensures Valid() && fresh(Repr - old(Repr))
      ensures Contents() == old(Contents()) + Encode(v)
      decreases v, 3
    {
      match v {
        case Nil => PackNull();
        case Bool(b) => PackBool(b);
        case Uint(u) => PackUint64(u);
        case Int(i) => PackInt64(i as int);
        case Bytes(s) => PackString(s);
        case List(_) => PackArray(v);
        case Dict(_) => PackMap(v);
      }
    }

    /** pack_array and pack_tuple: the header, then each element. */
    method PackArray(v: Value)
      requires v.List?
      requires Valid() && |Contents()| + |Encode(v)| <= PACK_LIMIT
      modifies Repr
      ensures Valid() && fresh(Repr - old(Repr))
      ensures Contents() == old(Contents()) + Encode(v)
      decreases v, 2
    {
      ghost var header := ContainerHeader(false, |v.items| % TWO_32);
      assert Encode(v) == header + EncodeAll(v.items);
      StartArray(|v.items| % TWO_32);
      ghost var start := Contents();
      for i := 0 to |v.items|
        invariant Valid() && fresh(Repr - old(Repr))
        invariant Contents() == start + EncodeAll(v.items[..i])
        invariant |start| + |EncodeAll(v.items)| <= PACK_LIMIT
      {
        var item := v.items[i];
        ghost var done := EncodeAll(v.items[..i]);
        EncodeAllSnoc(v.items, i);
        assert |Contents()| + |Encode(item)| <= PACK_LIMIT;
        Pack(item);
        AppendAssoc(start, done, Encode(item));
      }
      assert v.items[..|v.items|] == v.items;
      AppendAssoc(old(Contents()), header, EncodeAll(v.items));
    }

    /** pack_map: the header, then each key followed by its value. */
    method PackMap(v: Value)
      requires v.Dict?
      requires Valid() && |Contents()| + |Encode(v)| <= PACK_LIMIT
      modifies Repr
      ensures Valid() && fresh(Repr - old(Repr))
      ensures Contents() == old(Contents()) + Encode(v)
      decreases v, 2
    {
      ghost var header := ContainerHeader(true, |v.entries| % TWO_32);
      assert Encode(v) == header + EncodeEntries(v.entries);
      StartMap(|v.entries| % TWO_32);
      ghost var start := Contents();
      for i := 0 to |v.entries|
        invariant Valid() && fresh(Repr - old(Repr))
        invariant Contents() == start + EncodeEntries(v.entries[..i])
      {
        ghost var done := EncodeEntries(v.entries[..i]);
        EncodeEntriesSnoc(v.entries, i);
        PackEntry(v.entries[i]);
        AppendAssoc(start, done, EncodeEntry(v.entries[i]));
      }
      assert v.entries[..|v.entries|] == v.entries;
      AppendAssoc(old(Contents()), header, EncodeEntries(v.entries));
    }

    /** One entry of pack_map: the key, then its value. */
    method PackEntry(e: Entry)
      requires Valid() && |Contents()| + |EncodeEntry(e)| <= PACK_LIMIT
      modifies Repr
      ensures Valid() && fresh(Repr - old(Repr))
      ensures Contents() == old(Contents()) + EncodeEntry(e)
      decreases e, 1
    {
      ghost var start := Contents();
      Pack(e.key);
      Pack(e.val);
      AppendAssoc(start, Encode(e.key), Encode(e.val));
    }
  }

  lemma AppendAssoc(a: seq<byte>, b: seq<byte>, c: seq<byte>)
    ensures (a + b) + c == a + (b + c)
  {
  }
}
