// What the packer writes, the decoder reads back: each pack operation's
// bytes decode to the object of the same value, a packed sequence of values
// decodes to their objects in order, and the unpacker agrees.

module RoundTrip {
  import opened Common
  import opened Wire
  import opened Decoding
  import opened Packing
  import opened CircularBuffers
  import Unpacking

  // ---------------------------------------------------------------------
  // The object a packed value reads back as

  /** Strings and counts that fit the 32-bit length fields. */
  predicate Encodable(v: Value)
  {
    match v
    case Bytes(s) => |s| < TWO_32
    case List(items) => |items| < TWO_32 && forall k :: 0 <= k < |items| ==> Encodable(items[k])
    case Dict(entries) => |entries| < TWO_32 && forall k :: 0 <= k < |entries| ==> EncodableEntry(entries[k])
    case _ => true
  }

  predicate EncodableEntry(e: Entry)
  {
    Encodable(e.key) && Encodable(e.val)
  }

  /** A string packs as a str: it reads back as characters of the same codes. */
  function ToObject(v: Value): Object
  {
    match v
    case Nil => Null
    case Bool(b) => Boolean(b)
    case Uint(u) => Integer(u)
    case Int(i) => FromSigned(i as int)
    case Bytes(s) => Str(Chars(s))
    case List(items) => Array(Objects(items))
    case Dict(entries) => Map(ToPairs(entries))
  }

  function Objects(items: seq<Value>): (r: seq<Object>)
    ensures |r| == |items|
  {
    if |items| == 0 then [] else [ToObject(items[0])] + Objects(items[1..])
  }

  function ToPairs(entries: seq<Entry>): (r: seq<Pair>)
    ensures |r| == |entries|
  {
    if |entries| == 0 then [] else [ToPair(entries[0])] + ToPairs(entries[1..])
  }

  function ToPair(e: Entry): Pair
  {
    Pair(ToObject(e.key), ToObject(e.val))
  }

  /** The objects of a map's slots: key, value, key, value, ... */
  function Alternating(entries: seq<Entry>): (r: seq<Object>)
    ensures |r| == 2 * |entries|
  {
    if |entries| == 0 then []
    else [ToObject(entries[0].key), ToObject(entries[0].val)] + Alternating(entries[1..])
  }

  /** Taking a map's slots two at a time gives back its entries. */
  lemma {:induction false} PairsOfAlternating(entries: seq<Entry>)
    ensures Pairs(Alternating(entries)) == ToPairs(entries)
  {
    if |entries| > 0 {
      var r := Alternating(entries);
      assert r[2..] == Alternating(entries[1..]);
      PairsOfAlternating(entries[1..]);
      assert Pairs(r) == [Pair(r[0], r[1])] + Pairs(r[2..]);
    }
  }

  // ---------------------------------------------------------------------
  // How the decoder reads each kind of prefix

  /** A prefix that is the whole object. */
  lemma ImmediateDecodes(b: byte, rest: seq<byte>)
    requires Classify(b).Immediate?
    ensures DecodeObject([b] + rest) == Done(Classify(b).obj, 1)
  {
    assert ([b] + rest)[0] == b;
  }

  /** A prefix followed by a width-byte value. */
  lemma ScalarDecodes(r: seq<byte>, rest: seq<byte>, scalar: Scalar, width: nat)
    requires |r| == width + 1 && Classify(r[0]) == ScalarNext(scalar, width)
    ensures DecodeObject(r + rest) == Done(ScalarObject(scalar, r[1..]), width + 1)
  {
    var s := r + rest;
    assert s[0] == r[0];
    assert s[1..1 + width] == r[1..];
  }

  /** A prefix that holds the count itself. */
  lemma SizedDecodes(b: byte, t: seq<byte>, kind: Kind, count: nat)
    requires Classify(b) == Sized(kind, count)
    ensures DecodeObject([b] + t) == DecodeBody([b] + t, 1, kind, count)
  {
    assert ([b] + t)[0] == b;
  }

  /** A prefix followed by a width-byte count. */
  lemma LengthFirstDecodes(h: seq<byte>, t: seq<byte>, kind: Kind, width: nat)
    requires |h| == width + 1 && Classify(h[0]) == LengthFirst(kind, width)
    ensures DecodeObject(h + t) == DecodeBody(h + t, width + 1, kind, CountOf(kind, width, BigEndian(h[1..])))
  {
    var s := h + t;
    assert s[0] == h[0];
    assert s[1..1 + width] == h[1..];
  }

  // ---------------------------------------------------------------------
  // One pack operation at a time

  /** uint 8/16/32/64 reads back as the value written. */
  lemma UintDecodes(prefix: byte, width: nat, v: u64, rest: seq<byte>)
    requires Classify(prefix) == ScalarNext(UnsignedInt, width) && v < Pow256(width)
    ensures DecodeObject(Numeric(prefix, width, v) + rest) == Done(Integer(v), width + 1)
  {
    ModSmall(v, Pow256(width));
    ScalarDecodes(Numeric(prefix, width, v), rest, UnsignedInt, width);
  }

  /** A pack_uint64 reads back as the same integer, whatever follows it. */
  lemma EncodeUintDecodes(v: u64, rest: seq<byte>)
    ensures DecodeObject(EncodeUint(v) + rest) == Done(Integer(v), |EncodeUint(v)|)
  {
    Pow256Values();
    if v < 128 {
      ImmediateDecodes(v, rest);
    } else if v <= 0xff {
      UintDecodes(0xcc, 1, v, rest);
    } else if v <= 0xffff {
      UintDecodes(0xcd, 2, v, rest);
    } else if v <= 0xffff_ffff {
      UintDecodes(0xce, 4, v, rest);
    } else {
      UintDecodes(0xcf, 8, v, rest);
    }
  }

  /** int 8/16/32/64 of a negative value reads back as its 64-bit two's complement pattern. */
  lemma IntDecodes(prefix: byte, width: nat, v: int, rest: seq<byte>)
    requires Classify(prefix) == ScalarNext(SignedInt, width) && width in {1, 2, 4, 8}
    requires v < 0 && 2 * v + Pow256(width) >= 0
    ensures DecodeObject(Numeric(prefix, width, v) + rest) == Done(FromSigned(v), width + 1)
  {
    Pow256Values();
    ModNegative(v, Pow256(width));
    var r := Numeric(prefix, width, v);
    assert SignedOf(BigEndian(r[1..]), width) == v;
    ScalarDecodes(r, rest, SignedInt, width);
  }

  /** A pack_int64 reads back as the same integer, as a 64-bit two's complement pattern. */
  lemma EncodeIntDecodes(v: int, rest: seq<byte>)
    requires FitsSigned(v, 64)
    ensures DecodeObject(EncodeInt(v) + rest) == Done(FromSigned(v), |EncodeInt(v)|)
  {
    Pow256Values();
    if v >= 0 {
      EncodeUintDecodes(v, rest);
    } else if v >= -32 {
      ImmediateDecodes(v + 0x100, rest);
    } else if v >= -0x80 {
      IntDecodes(0xd0, 1, v, rest);
    } else if v >= -0x8000 {
      IntDecodes(0xd1, 2, v, rest);
    } else if v >= -0x8000_0000 {
      IntDecodes(0xd2, 4, v, rest);
    } else {
      IntDecodes(0xd3, 8, v, rest);
    }
  }

  /** A length field of a family other than ext reads back as the length written. */
  lemma LengthDecodes(prefix: byte, width: nat, n: nat, kind: Kind, t: seq<byte>)
    requires Classify(prefix) == LengthFirst(kind, width) && kind != ExtKind && n < Pow256(width)
    ensures DecodeObject(Numeric(prefix, width, n) + t) == DecodeBody(Numeric(prefix, width, n) + t, width + 1, kind, n)
  {
    ModSmall(n, Pow256(width));
    LengthFirstDecodes(Numeric(prefix, width, n), t, kind, width);
  }

  /** A str header announces a body of n bytes. */
  lemma StrHeaderDecodes(n: nat, t: seq<byte>)
    requires n < TWO_32
    ensures 1 <= |StrHeader(n)| <= |StrHeader(n) + t|
    ensures DecodeObject(StrHeader(n) + t) == DecodeBody(StrHeader(n) + t, |StrHeader(n)|, StrKind, n)
  {
    Pow256Values();
    if n <= 31 {
      SizedDecodes(0xa0 + n, t, StrKind, n);
    } else if n <= 0xff {
      LengthDecodes(0xd9, 1, n, StrKind, t);
    } else if n <= 0xffff {
      LengthDecodes(0xda, 2, n, StrKind, t);
    } else {
      LengthDecodes(0xdb, 4, n, StrKind, t);
    }
  }

  /** A pack_string of fewer than 2^32 bytes reads back as the same characters. */
  lemma EncodeStrDecodes(str: seq<byte>, rest: seq<byte>)
    requires |str| < TWO_32
    ensures DecodeObject(EncodeStr(str) + rest) == Done(Str(Chars(str)), |EncodeStr(str)|)
  {
    var h := StrHeader(|str|);
    assert EncodeStr(str) + rest == h + (str + rest);
    StrHeaderDecodes(|str|, str + rest);
    if |str| > 0 {
      assert (h + (str + rest))[|h|..|h| + |str|] == str;
    }
  }

  /** An array or map header announces n elements. */
  lemma ContainerHeaderDecodes(isMap: bool, n: nat, t: seq<byte>)
    requires n < TWO_32
    ensures 1 <= |ContainerHeader(isMap, n)| <= |ContainerHeader(isMap, n) + t|
    ensures DecodeObject(ContainerHeader(isMap, n) + t)
      == DecodeBody(ContainerHeader(isMap, n) + t, |ContainerHeader(isMap, n)|, if isMap then MapKind else ArrKind, n)
  {
    Pow256Values();
    var kind := if isMap then MapKind else ArrKind;
    if n <= 15 {
      SizedDecodes((if isMap then 0x80 else 0x90) + n, t, kind, n);
    } else if n <= 0xffff {
      LengthDecodes(if isMap then 0xde else 0xdc, 2, n, kind, t);
    } else {
      LengthDecodes(if isMap then 0xdf else 0xdd, 4, n, kind, t);
    }
  }

  // ---------------------------------------------------------------------
  // Whole values

  /** pack of any value reads back as its object, whatever follows it. */
  lemma {:induction false} EncodeDecodes(v: Value, rest: seq<byte>)
    requires Encodable(v)
    ensures DecodeObject(Encode(v) + rest) == Done(ToObject(v), |Encode(v)|)
    decreases v, 1
  {
    match v
    case Nil =>
    case Bool(b) =>
    case Uint(u) => EncodeUintDecodes(u, rest);
    case Int(i) => EncodeIntDecodes(i as int, rest);
    case Bytes(str) => EncodeStrDecodes(str, rest);
    case List(items) => ListDecodes(v, rest);
    case Dict(entries) => DictDecodes(v, rest);
  }

  lemma {:induction false} ListDecodes(v: Value, rest: seq<byte>)
    requires v.List? && Encodable(v)
    ensures DecodeObject(Encode(v) + rest) == Done(ToObject(v), |Encode(v)|)
    decreases v, 0
  {
    var n := |v.items|;
    var h := ContainerHeader(false, n);
    var body := EncodeAll(v.items);
    assert n % TWO_32 == n;
    assert Encode(v) + rest == h + (body + rest);
    ContainerHeaderDecodes(false, n, body + rest);
    if n > 0 {
      assert (h + (body + rest))[|h|..] == body + rest;
      EncodeAllDecodes(v.items, rest);
    }
  }

  lemma {:induction false} DictDecodes(v: Value, rest: seq<byte>)
    requires v.Dict? && Encodable(v)
    ensures DecodeObject(Encode(v) + rest) == Done(ToObject(v), |Encode(v)|)
    decreases v, 0
  {
    var n := |v.entries|;
    var h := ContainerHeader(true, n);
    var body := EncodeEntries(v.entries);
    assert n % TWO_32 == n;
    assert Encode(v) + rest == h + (body + rest);
    ContainerHeaderDecodes(true, n, body + rest);
    if n > 0 {
      assert (h + (body + rest))[|h|..] == body + rest;
      EncodeEntriesDecodes(v.entries, rest);
      PairsOfAlternating(v.entries);
    } else {
      assert v.entries == [];
    }
  }

  /** Packed elements one after another read back as their objects in order. */
  lemma {:induction false} EncodeAllDecodes(items: seq<Value>, rest: seq<byte>)
    requires forall k :: 0 <= k < |items| ==> Encodable(items[k])
    ensures DecodeItems(EncodeAll(items) + rest, |items|) == Done(Objects(items), |EncodeAll(items)|)
    decreases items
  {
    if |items| > 0 {
      var head := Encode(items[0]);
      var tail := EncodeAll(items[1..]);
      assert EncodeAll(items) + rest == head + (tail + rest);
      EncodeDecodes(items[0], tail + rest);
      assert (head + (tail + rest))[|head|..] == tail + rest;
      EncodeAllDecodes(items[1..], rest);
    }
  }

  /** Packed entries read back as their keys and values, alternating. */
  lemma {:induction false} EncodeEntriesDecodes(entries: seq<Entry>, rest: seq<byte>)
    requires forall k :: 0 <= k < |entries| ==> EncodableEntry(entries[k])
    ensures DecodeItems(EncodeEntries(entries) + rest, 2 * |entries|) == Done(Alternating(entries), |EncodeEntries(entries)|)
    decreases entries
  {
    if |entries| > 0 {
      var tail := EncodeEntries(entries[1..]);
      assert EncodeEntries(entries) + rest == EncodeEntry(entries[0]) + (tail + rest);
      EncodeEntriesDecodes(entries[1..], rest);
      EntryDecodes(entries[0], tail + rest, 2 * |entries|, Alternating(entries[1..]), |tail|);
    }
  }

  /** An entry's key reads back, then its value, then what follows. */
  lemma {:induction false} EntryDecodes(e: Entry, t: seq<byte>, n: nat, xs: seq<Object>, k: nat)
    requires EncodableEntry(e) && n >= 2 && DecodeItems(t, n - 2) == Done(xs, k)
    ensures DecodeItems(EncodeEntry(e) + t, n) == Done([ToObject(e.key), ToObject(e.val)] + xs, |EncodeEntry(e)| + k)
    decreases e
  {
    EncodeDecodes(e.key, Encode(e.val) + t);
    EncodeDecodes(e.val, t);
    TwoItems(Encode(e.key), Encode(e.val), t, n, ToObject(e.key), ToObject(e.val), xs, k);
  }

  /** Two objects followed by n - 2 more are n objects. */
  lemma TwoItems(a: seq<byte>, b: seq<byte>, c: seq<byte>, n: nat, x: Object, y: Object, xs: seq<Object>, k: nat)
    requires n >= 2 && DecodeObject(a + (b + c)) == Done(x, |a|) && DecodeObject(b + c) == Done(y, |b|)
    requires DecodeItems(c, n - 2) == Done(xs, k)
    ensures DecodeItems((a + b) + c, n) == Done([x, y] + xs, |a| + |b| + k)
  {
    ItemsCons(b, c, n - 1, y, xs, k);
    ItemsCons(a, b + c, n, x, [y] + xs, |b| + k);
    AppendAssoc(a, b, c);
    ConsTwo(x, y, xs);
  }

  lemma ConsTwo(x: Object, y: Object, xs: seq<Object>)
    ensures [x, y] + xs == [x] + ([y] + xs)
  {
  }

  /** An object followed by n - 1 more is n objects. */
  lemma ItemsCons(a: seq<byte>, b: seq<byte>, n: nat, x: Object, xs: seq<Object>, k: nat)
    requires n > 0 && DecodeObject(a + b) == Done(x, |a|) && DecodeItems(b, n - 1) == Done(xs, k)
    ensures DecodeItems(a + b, n) == Done([x] + xs, |a| + k)
  {
    assert (a + b)[|a|..] == b;
  }

  /**
   * A packed sequence of values, followed by too few bytes for one more
   * object, reads back as the values' objects.
   */
  lemma {:induction false} StreamDecodes(vs: seq<Value>, tail: seq<byte>)
    requires forall k :: 0 <= k < |vs| ==> Encodable(vs[k])
    requires DecodeObject(tail).Short?
    ensures DecodeStream(EncodeAll(vs) + tail) == Stream(Objects(vs), |EncodeAll(vs)|)
    decreases vs
  {
    if |vs| == 0 {
      assert EncodeAll(vs) + tail == tail;
    } else {
      var head := Encode(vs[0]);
      var rest := EncodeAll(vs[1..]);
      var s := EncodeAll(vs) + tail;
      assert s == head + (rest + tail);
      EncodeDecodes(vs[0], rest + tail);
      assert s[|head|..] == rest + tail;
      StreamDecodes(vs[1..], tail);
    }
  }

  // ---------------------------------------------------------------------
  // The packer and the unpacker together

  /**
   * Packs the values, copies the packed bytes out of the buffer, then feeds
   * them to an unpacker in the given pieces: the objects that come out are
   * the values' objects.
   */
  method PackThenUnpack(vs: seq<Value>, cuts: seq<nat>) returns (objs: seq<Object>)
    requires forall k :: 0 <= k < |vs| ==> Encodable(vs[k])
    requires |EncodeAll(vs)| <= PACK_LIMIT
    ensures objs == Objects(vs)
  {
    var packer := new Packer();
    for i := 0 to |vs|
      invariant packer.Valid() && fresh(packer.Repr)
      invariant packer.Contents() == EncodeAll(vs[..i])
    {
      EncodeAllSnoc(vs, i);
      packer.Pack(vs[i]);
    }
    assert vs[..|vs|] == vs;
    var bytes := ReadAll(packer.buffer);
    var chunks := Split(bytes, cuts);
    objs := Unpacking.UnpackAll(chunks);
    StreamDecodes(vs, []);
    assert EncodeAll(vs) + [] == EncodeAll(vs);
  }

  /** Cuts the bytes into consecutive pieces of the given sizes (the last piece takes what is left). */
  function Split(bytes: seq<byte>, sizes: seq<nat>): (chunks: seq<seq<byte>>)
    ensures Unpacking.Concat(chunks) == bytes
    decreases |sizes|
  {
    if |sizes| == 0 || sizes[|sizes| - 1] > |bytes| then [bytes]
    else
      var n := |bytes| - sizes[|sizes| - 1];
      var front := Split(bytes[..n], sizes[..|sizes| - 1]);
      assert bytes[..n] + bytes[n..] == bytes;
      front + [bytes[n..]]
  }
}
