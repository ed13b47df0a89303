// The MessagePack decoding rules: what each prefix byte announces, and a
// recursive-descent reference decoder over a complete byte string. The
// resumable unpacker is proved against this reference.

module Decoding {
  import opened Common
  import opened Wire

  /** The variable-size families: their bodies are bytes or nested objects. */
  datatype Kind = StrKind | BinKind | ExtKind | ArrKind | MapKind

  /** How a fixed-width value that follows the prefix is interpreted. */
  datatype Scalar = UnsignedInt | SignedInt | FloatBits

  /** What a prefix byte announces. */
  datatype Head =
    | Immediate(obj: Object)                  // the prefix is the whole object
    | Sized(kind: Kind, count: nat)           // the count is part of the prefix
    | LengthFirst(kind: Kind, width: nat)     // a width-byte big-endian count follows
    | ScalarNext(scalar: Scalar, width: nat)  // a width-byte value follows

  predicate IsContainer(kind: Kind)
  {
    kind == ArrKind || kind == MapKind
  }

  /** 1, 2, 4 or 8 bytes for the four members of a format family. */
  function FamilyWidth(i: nat): (w: nat)
    requires i < 4
    ensures w in {1, 2, 4, 8}
  {
    if i == 0 then 1 else if i == 1 then 2 else if i == 2 then 4 else 8
  }

  /** The dispatch of the decode loop on the prefix byte. */
  function Classify(b: byte): (h: Head)
    ensures h.LengthFirst? ==> h.width in {1, 2, 4}
    ensures h.ScalarNext? ==> h.width in {1, 2, 4, 8}
    ensures h.ScalarNext? && h.scalar == FloatBits ==> h.width in {4, 8}
  {
    if b <= 0x7f then Immediate(Integer(b))
    // fixmap, fixarray: the low four bits; fixstr: the low five bits
    else if b <= 0x8f then Sized(MapKind, b - 0x80)
    else if b <= 0x9f then Sized(ArrKind, b - 0x90)
    else if b <= 0xbf then Sized(StrKind, b - 0xa0)
    else if b == 0xc0 then Immediate(Null)
    else if b == 0xc1 then Immediate(Invalid)
    else if b == 0xc2 then Immediate(Boolean(false))
    else if b == 0xc3 then Immediate(Boolean(true))
    else if b <= 0xc6 then LengthFirst(BinKind, FamilyWidth(b - 0xc4))
    else if b <= 0xc9 then LengthFirst(ExtKind, FamilyWidth(b - 0xc7))
    else if b == 0xca then ScalarNext(FloatBits, 4)
    else if b == 0xcb then ScalarNext(FloatBits, 8)
    else if b <= 0xcf then ScalarNext(UnsignedInt, FamilyWidth(b - 0xcc))
    else if b <= 0xd3 then ScalarNext(SignedInt, FamilyWidth(b - 0xd0))
    // fixext 1, 2, 4, 8, 16: the stored length counts the type byte
    else if b == 0xd4 then Sized(ExtKind, 2)
    else if b == 0xd5 then Sized(ExtKind, 3)
    else if b == 0xd6 then Sized(ExtKind, 5)
    else if b == 0xd7 then Sized(ExtKind, 9)
    else if b == 0xd8 then Sized(ExtKind, 17)
    else if b <= 0xdb then LengthFirst(StrKind, FamilyWidth(b - 0xd9))
    else if b <= 0xdd then LengthFirst(ArrKind, FamilyWidth(b - 0xdc + 1))
    else if b <= 0xdf then LengthFirst(MapKind, FamilyWidth(b - 0xde + 1))
    // negative fixint: -256 | b as a 64-bit pattern
    else Immediate(Integer(b + (TWO_64 - 0x100)))
  }

  /**
   * The count announced by a length field of the given width. An extension's
   * count adds its type byte; for ext 32 that sum is taken in 32-bit
   * unsigned arithmetic before it widens, so 0xffffffff becomes 0.
   */
  function CountOf(kind: Kind, width: nat, raw: nat): (n: nat)
    ensures kind != ExtKind ==> n == raw
    ensures kind == ExtKind && width != 4 ==> n == raw + 1
    ensures kind == ExtKind && width == 4 ==> n == (raw + 1) % TWO_32
  {
    if kind == ExtKind then (if width == 4 then (1 + raw) % TWO_32 else 1 + raw)
    else raw
  }

  /** The number of objects a container of count elements holds: a map holds key, value, key, ... */
  function Slots(kind: Kind, count: nat): (n: nat)
    ensures kind == MapKind ==> n == 2 * count
    ensures kind != MapKind ==> n == count
  {
    if kind == MapKind then 2 * count else count
  }

  /** Bytes shown as the characters of the same code. */
  function Chars(data: seq<byte>): (r: string)
    ensures |r| == |data| && forall i :: 0 <= i < |data| ==> r[i] as int == data[i]
  {
    seq(|data|, i requires 0 <= i < |data| => data[i] as char)
  }

  /** Two's complement reading of a width-byte value. */
  function SignedOf(v: nat, width: nat): (r: int)
    requires v < Pow256(width)
    ensures 2 * r < Pow256(width) && 2 * r + Pow256(width) >= 0
    ensures r >= 0 <==> 2 * v < Pow256(width)
  {
    if 2 * v >= Pow256(width) then v - Pow256(width) else v
  }

  /** The object a completed fixed-width read produces. */
  function ScalarObject(scalar: Scalar, data: seq<byte>): Object
  {
    match scalar
    case UnsignedInt => Integer(Wrap64(BigEndian(data)))
    case SignedInt => Integer(Wrap64(SignedOf(BigEndian(data), |data|)))
    case FloatBits => Float(data)
  }

  /** The object a completed byte-body read produces. */
  function PayloadObject(kind: Kind, data: seq<byte>): Object
  {
    match kind
    case StrKind => Str(Chars(data))
    case BinKind => Binary(data)
    case ExtKind => Extension(data)
    case _ => Invalid
  }

  /** Consecutive objects taken two at a time as key and value. */
  function Pairs(items: seq<Object>): (r: seq<Pair>)
    ensures |r| == |items| / 2
    ensures forall i :: 0 <= i < |r| ==> r[i] == Pair(items[2 * i], items[2 * i + 1])
  {
    if |items| < 2 then [] else [Pair(items[0], items[1])] + Pairs(items[2..])
  }

  /** The container object made of its decoded slots. */
  function Container(kind: Kind, items: seq<Object>): Object
  {
    if kind == MapKind then Map(Pairs(items)) else Array(items)
  }

  /** A zero count gives the empty value of the family, without reading further. */
  function Empty(kind: Kind): Object
  {
    if IsContainer(kind) then Container(kind, []) else PayloadObject(kind, [])
  }

  datatype Decoded<T> = Done(value: T, used: nat) | Short

  /** One object from the start of s, and how many bytes it took; Short if s ends first. */
  function DecodeObject(s: seq<byte>): (r: Decoded<Object>)
    ensures r.Done? ==> 1 <= r.used <= |s|
    decreases |s|, 2
  {
    if |s| == 0 then Short
    else match Classify(s[0])
      case Immediate(obj) => Done(obj, 1)
      case Sized(kind, count) => DecodeBody(s, 1, kind, count)
      case LengthFirst(kind, width) =>
        if |s| < 1 + width then Short
        else DecodeBody(s, 1 + width, kind, CountOf(kind, width, BigEndian(s[1..1 + width])))
      case ScalarNext(scalar, width) =>
        if |s| < 1 + width then Short
        else Done(ScalarObject(scalar, s[1..1 + width]), 1 + width)
  }

  /** The body of a sized object whose header ends at start. */
  function DecodeBody(s: seq<byte>, start: nat, kind: Kind, count: nat): (r: Decoded<Object>)
    requires 1 <= start <= |s|
    ensures r.Done? ==> start <= r.used <= |s|
    decreases |s|, 1
  {
    if count == 0 then Done(Empty(kind), start)
    else if IsContainer(kind) then
      match DecodeItems(s[start..], Slots(kind, count))
      case Short => Short
      case Done(items, k) => Done(Container(kind, items), start + k)
    else if |s| - start < count then Short
    else Done(PayloadObject(kind, s[start..start + count]), start + count)
  }

  /** n consecutive objects from the start of s. */
  function DecodeItems(s: seq<byte>, n: nat): (r: Decoded<seq<Object>>)
    ensures r.Done? ==> r.used <= |s| && |r.value| == n
    ensures r.Done? && n > 0 ==> r.used >= 1
    decreases |s|, 3
  {
    if n == 0 then Done([], 0)
    else match DecodeObject(s)
      case Short => Short
      case Done(v, k) =>
        match DecodeItems(s[k..], n - 1)
        case Short => Short
        case Done(vs, k2) => Done([v] + vs, k + k2)
  }

  /** The objects of a stream, and the length of the prefix they take. */
  datatype Stream = Stream(objs: seq<Object>, used: nat)

  /** Complete objects one after another, until the rest is too short for one more. */
  function DecodeStream(s: seq<byte>): (r: Stream)
    ensures r.used <= |s|
    ensures DecodeObject(s[r.used..]).Short?
    decreases |s|
  {
    match DecodeObject(s)
    case Short => Stream([], 0)
    case Done(v, k) =>
      var tail := DecodeStream(s[k..]);
      assert s[k..][tail.used..] == s[k + tail.used..];
      Stream([v] + tail.objs, k + tail.used)
  }

  // ---------------------------------------------------------------------
  // Properties of the reference

  /** Decoding looks only at the bytes it uses: more input after an object changes nothing. */
  lemma {:induction false} DecodeObjectPrefix(s: seq<byte>, extra: seq<byte>)
    requires DecodeObject(s).Done?
    ensures DecodeObject(s + extra) == DecodeObject(s)
    decreases |s|, 2
  {
    assert (s + extra)[0] == s[0];
    match Classify(s[0])
    case Immediate(obj) =>
    case Sized(kind, count) =>
      DecodeBodyPrefix(s, extra, 1, kind, count);
    case LengthFirst(kind, width) =>
      assert (s + extra)[1..1 + width] == s[1..1 + width];
      DecodeBodyPrefix(s, extra, 1 + width, kind, CountOf(kind, width, BigEndian(s[1..1 + width])));
    case ScalarNext(scalar, width) =>
      assert (s + extra)[1..1 + width] == s[1..1 + width];
  }

  lemma {:induction false} DecodeBodyPrefix(s: seq<byte>, extra: seq<byte>, start: nat, kind: Kind, count: nat)
    requires 1 <= start <= |s|
    requires DecodeBody(s, start, kind, count).Done?
    ensures DecodeBody(s + extra, start, kind, count) == DecodeBody(s, start, kind, count)
    decreases |s|, 1
  {
    if count == 0 {
    } else if IsContainer(kind) {
      assert (s + extra)[start..] == s[start..] + extra;
      DecodeItemsPrefix(s[start..], extra, Slots(kind, count));
    } else {
      assert (s + extra)[start..start + count] == s[start..start + count];
    }
  }

  lemma {:induction false} DecodeItemsPrefix(s: seq<byte>, extra: seq<byte>, n: nat)
    requires DecodeItems(s, n).Done?
    ensures DecodeItems(s + extra, n) == DecodeItems(s, n)
    decreases |s|, 3
  {
    if n > 0 {
      var k := DecodeObject(s).used;
      DecodeObjectPrefix(s, extra);
      assert (s + extra)[k..] == s[k..] + extra;
      DecodeItemsPrefix(s[k..], extra, n - 1);
    }
  }
}
