// MessagePack values as the decoder produces them, the 64-bit integer
// wrapper with its signed/unsigned views, map lookup, and the two textual
// renderings (value text and type text).

module Wire {
  import opened Common

  type u64 = x: int | 0 <= x < 0x1_0000_0000_0000_0000

  /**
   * One MessagePack object. Integers keep only their 64-bit pattern (the
   * sign is lost on decode); floats are an opaque big-endian payload of 4 or
   * 8 bytes; strings are byte strings shown as characters below 256; an
   * extension's data starts with its type byte.
   */
  datatype Object =
    | Invalid
    | Null
    | Integer(bits: u64)
    | Float(raw: seq<byte>)
    | Boolean(value: bool)
    | Str(text: string)
    | Binary(data: seq<byte>)
    | Extension(data: seq<byte>)
    | Array(items: seq<Object>)
    | Map(pairs: seq<Pair>)

  datatype Pair = Pair(key: Object, value: Object)

  // ---------------------------------------------------------------------
  // The integer wrapper

  /** Number of distinct values of an integral type of the given bit width. */
  function Range(width: nat): (r: nat)
    requires width in {8, 16, 32, 64}
    ensures r >= 256
  {
    if width == 8 then 0x100
    else if width == 16 then 0x1_0000
    else if width == 32 then 0x1_0000_0000
    else 0x1_0000_0000_0000_0000
  }

  predicate FitsSigned(v: int, width: nat)
    requires width in {8, 16, 32, 64}
  {
    -(Range(width) / 2) <= v < Range(width) / 2
  }

  /** Constructing from a signed integer stores its two's complement pattern. */
  function FromSigned(v: int): (r: Object)
    requires FitsSigned(v, 64)
    ensures r.Integer?
  {
    Integer(if v < 0 then v + TWO_64 else v)
  }

  function FromUnsigned(v: u64): (r: Object)
    ensures r.Integer?
  {
    Integer(v)
  }

  function SignedValue(bits: u64): (r: int)
    ensures FitsSigned(r, 64)
    ensures r % TWO_64 == bits
  {
    if bits >= TWO_63 then bits - TWO_64 else bits
  }

  function UnsignedValue(bits: u64): (r: u64)
  {
    bits
  }

  /** as<T>() for an unsigned T: the unsigned value truncated to T's width. */
  function AsUnsigned(bits: u64, width: nat): (r: nat)
    requires width in {8, 16, 32, 64}
    ensures r < Range(width)
  {
    bits % Range(width)
  }

  /** as<T>() for a signed T: the signed value truncated to T's width. */
  function AsSigned(bits: u64, width: nat): (r: int)
    requires width in {8, 16, 32, 64}
    ensures FitsSigned(r, width)
  {
    var t := bits % Range(width);
    if t >= Range(width) / 2 then t - Range(width) else t
  }

  lemma SignedRoundTrip(v: int)
    requires FitsSigned(v, 64)
    ensures SignedValue(FromSigned(v).bits) == v
  {
  }

  lemma UnsignedRoundTrip(v: u64)
    ensures UnsignedValue(FromUnsigned(v).bits) == v
    ensures AsUnsigned(FromUnsigned(v).bits, 64) == v
  {
  }

  /** A signed value that fits in T comes back unchanged through as<T>(). */
  lemma AsSignedRoundTrip(v: int, width: nat)
    requires width in {8, 16, 32, 64}
    requires FitsSigned(v, width)
    ensures AsSigned(FromSigned(v).bits, width) == v
  {
    var bits := FromSigned(v).bits;
    var m := Range(width);
    if v < 0 {
      // the pattern is v + m followed by all-ones above the width
      var k := if width == 8 then 0xFF_FFFF_FFFF_FFFF
        else if width == 16 then 0xFFFF_FFFF_FFFF
        else if width == 32 then 0xFFFF_FFFF
        else 0;
      assert bits == (v + m) + m * k;
      ModAddMultiple(v + m, k, m);
      ModSmall(v + m, m);
    } else {
      ModSmall(v, m);
    }
  }

  /** Equality is by pattern: -1 and 2^64-1 construct the same integer. */
  lemma SignIsLost()
    ensures FromSigned(-1) == FromUnsigned(TWO_64 - 1)
  {
  }

  // ---------------------------------------------------------------------
  // Map lookup

  /** map_view::get: the value of the first pair whose key equals key. */
  function MapGet(pairs: seq<Pair>, key: Object): (r: Option<Object>)
    ensures r.None? <==> forall i :: 0 <= i < |pairs| ==> pairs[i].key != key
    ensures r.Some? ==> exists i :: 0 <= i < |pairs| && pairs[i].key == key && pairs[i].value == r.value &&
                                     forall j :: 0 <= j < i ==> pairs[j].key != key
  {
    if |pairs| == 0 then None
    else if pairs[0].key == key then Some(pairs[0].value)
    else
      var r := MapGet(pairs[1..], key);
      assert forall i :: 1 <= i < |pairs| ==> pairs[i] == pairs[1..][i - 1];
      if r.Some? then
        ghost var i :| 0 <= i < |pairs[1..]| && pairs[1..][i].key == key && pairs[1..][i].value == r.value &&
                       forall j :: 0 <= j < i ==> pairs[1..][j].key != key;
        assert pairs[i + 1].key == key && pairs[i + 1].value == r.value;
        assert forall j :: 0 <= j < i + 1 ==> pairs[j].key != key by {
          forall j | 0 <= j < i + 1 ensures pairs[j].key != key {
            if j > 0 { assert pairs[j] == pairs[1..][j - 1]; }
          }
        }
        r
      else r
  }

  // ---------------------------------------------------------------------
  // Text renderings

  function Join(parts: seq<string>): (r: string)
    ensures |parts| == 0 ==> r == ""
    ensures |parts| == 1 ==> r == parts[0]
  {
    if |parts| == 0 then ""
    else if |parts| == 1 then parts[0]
    else parts[0] + ", " + Join(parts[1..])
  }

  /** Joining two non-empty lists puts one ", " between their joins. */
  lemma {:induction false} JoinAppend(a: seq<string>, b: seq<string>)
    requires |a| > 0 && |b| > 0
    ensures Join(a + b) == Join(a) + ", " + Join(b)
  {
    if |a| == 1 {
      assert (a + b)[1..] == b;
    } else {
      assert (a + b)[1..] == a[1..] + b;
      JoinAppend(a[1..], b);
    }
  }

  /** Names the kind of every scalar and spells out the structure of containers. */
  function TypeString(obj: Object): string
  {
    match obj
    case Invalid => "invalid"
    case Null => "null"
    case Integer(_) => "integer"
    case Float(_) => "float64"
    case Boolean(_) => "boolean"
    case Str(_) => "string"
    case Binary(_) => "binary"
    case Extension(_) => "extension"
    case Array(items) => "[" + Join(TypeStrings(items)) + "]"
    case Map(pairs) => "{" + Join(PairTypeStrings(pairs)) + "}"
  }

  function TypeStrings(items: seq<Object>): (r: seq<string>)
    ensures |r| == |items|
  {
    if |items| == 0 then [] else [TypeString(items[0])] + TypeStrings(items[1..])
  }

  function PairTypeStrings(pairs: seq<Pair>): (r: seq<string>)
    ensures |r| == |pairs|
  {
    if |pairs| == 0 then []
    else [PairTypeString(pairs[0])] + PairTypeStrings(pairs[1..])
  }

  function PairTypeString(p: Pair): string
  {
    TypeString(p.key) + " : " + TypeString(p.value)
  }

  /** Two objects have the same shape when they agree on kinds all the way down. */
  predicate SameShape(a: Object, b: Object)
  {
    match (a, b)
    case (Invalid, Invalid) => true
    case (Null, Null) => true
    case (Integer(_), Integer(_)) => true
    case (Float(_), Float(_)) => true
    case (Boolean(_), Boolean(_)) => true
    case (Str(_), Str(_)) => true
    case (Binary(_), Binary(_)) => true
    case (Extension(_), Extension(_)) => true
    case (Array(xs), Array(ys)) =>
      |xs| == |ys| && forall i :: 0 <= i < |xs| ==> SameShape(xs[i], ys[i])
    case (Map(ps), Map(qs)) =>
      |ps| == |qs| && forall i :: 0 <= i < |ps| ==>
        SameShape(ps[i].key, qs[i].key) && SameShape(ps[i].value, qs[i].value)
    case _ => false
  }

  /** type_string sees only the shape of a value, never its contents. */
  lemma {:induction false} TypeStringShapeOnly(a: Object, b: Object)
    requires SameShape(a, b)
    ensures TypeString(a) == TypeString(b)
    decreases a
  {
    match (a, b)
    case (Array(xs), Array(ys)) =>
      TypeStringsShapeOnly(xs, ys);
    case (Map(ps), Map(qs)) =>
      PairTypeStringsShapeOnly(ps, qs);
    case _ =>
  }

  lemma {:induction false} TypeStringsShapeOnly(xs: seq<Object>, ys: seq<Object>)
    requires |xs| == |ys| && forall i :: 0 <= i < |xs| ==> SameShape(xs[i], ys[i])
    ensures TypeStrings(xs) == TypeStrings(ys)
    decreases xs
  {
    if |xs| > 0 {
      TypeStringShapeOnly(xs[0], ys[0]);
      TypeStringsShapeOnly(xs[1..], ys[1..]);
    }
  }

  lemma {:induction false} PairTypeStringsShapeOnly(ps: seq<Pair>, qs: seq<Pair>)
    requires |ps| == |qs| && forall i :: 0 <= i < |ps| ==>
      SameShape(ps[i].key, qs[i].key) && SameShape(ps[i].value, qs[i].value)
    ensures PairTypeStrings(ps) == PairTypeStrings(qs)
    decreases ps
  {
    if |ps| > 0 {
      PairTypeStringShapeOnly(ps[0], qs[0]);
      PairTypeStringsShapeOnly(ps[1..], qs[1..]);
    }
  }

  lemma {:induction false} PairTypeStringShapeOnly(p: Pair, q: Pair)
    requires SameShape(p.key, q.key) && SameShape(p.value, q.value)
    ensures PairTypeString(p) == PairTypeString(q)
    decreases p
  {
    TypeStringShapeOnly(p.key, q.key);
    TypeStringShapeOnly(p.value, q.value);
  }

  // Decimal and hexadecimal digits

  function DigitChar(d: nat): (c: char)
    requires d < 10
    ensures '0' <= c <= '9'
  {
    ['0', '1', '2', '3', '4', '5', '6', '7', '8', '9'][d]
  }

  /** The decimal text of n without leading zeros, as std::to_string writes it. */
  function Decimal(n: nat): (r: string)
    ensures |r| >= 1
    ensures forall i :: 0 <= i < |r| ==> '0' <= r[i] <= '9'
    decreases n
  {
    if n < 10 then [DigitChar(n)] else Decimal(n / 10) + [DigitChar(n % 10)]
  }

  /** Reads a string of decimal digits back into a number. */
  function DecimalValue(s: string): nat
    requires forall i :: 0 <= i < |s| ==> '0' <= s[i] <= '9'
  {
    if |s| == 0 then 0 else 10 * DecimalValue(s[..|s| - 1]) + ((s[|s| - 1] as int) - ('0' as int))
  }

  lemma {:induction false} DecimalRoundTrip(n: nat)
    ensures DecimalValue(Decimal(n)) == n
    decreases n
  {
    var r := Decimal(n);
    DigitCharValue(n % 10);
    if n >= 10 {
      assert r[..|r| - 1] == Decimal(n / 10) && r[|r| - 1] == DigitChar(n % 10);
      DecimalRoundTrip(n / 10);
      assert DecimalValue(r) == 10 * (n / 10) + n % 10;
    } else {
      assert r[..0] == [];
    }
  }

  lemma DigitCharValue(d: nat)
    requires d < 10
    ensures DigitChar(d) as int - '0' as int == d
  {
  }

  /** The digit table "0123456789abcdef" indexed by d. */
  function HexDigit(d: nat): (c: char)
    requires d < 16
  {
    if d < 10 then (('0' as int) + d) as char else (('a' as int) + d - 10) as char
  }

  /** Two lower-case hex digits of a byte, high nibble first. */
  function HexByte(b: byte): (r: string)
    ensures |r| == 2
  {
    [HexDigit(b / 16), HexDigit(b % 16)]
  }

  function HexValue(c: char): nat
  {
    if '0' <= c <= '9' then (c as int) - ('0' as int)
    else if 'a' <= c <= 'f' then (c as int) - ('a' as int) + 10
    else 0
  }

  /** A byte's two hex digits determine the byte. */
  lemma HexByteRoundTrip(b: byte)
    ensures 16 * HexValue(HexByte(b)[0]) + HexValue(HexByte(b)[1]) == b
  {
  }

  function HexBytes(data: seq<byte>): (r: seq<string>)
    ensures |r| == |data|
    ensures forall i :: 0 <= i < |data| ==> r[i] == HexByte(data[i])
  {
    if |data| == 0 then [] else [HexByte(data[0])] + HexBytes(data[1..])
  }

  /**
   * to_string: the text of a value. Integers print their unsigned pattern in
   * decimal; float text is produced by the C library and is supplied here by
   * floatText.
   */
  function ToString(obj: Object, floatText: seq<byte> -> string): string
  {
    match obj
    case Invalid => "(invalid)"
    case Null => "null"
    case Integer(bits) => Decimal(bits)
    case Float(raw) => floatText(raw)
    case Boolean(b) => if b then "True" else "False"
    case Str(text) => "\"" + text + "\""
    case Binary(data) => "b'" + Join(HexBytes(data)) + "'"
    case Extension(_) => "(extension)"
    case Array(items) => "[" + Join(ItemStrings(items, floatText)) + "]"
    case Map(pairs) => "{" + Join(PairStrings(pairs, floatText)) + "}"
  }

  function ItemStrings(items: seq<Object>, floatText: seq<byte> -> string): (r: seq<string>)
    ensures |r| == |items|
  {
    if |items| == 0 then [] else [ToString(items[0], floatText)] + ItemStrings(items[1..], floatText)
  }

  function PairStrings(pairs: seq<Pair>, floatText: seq<byte> -> string): (r: seq<string>)
    ensures |r| == |pairs|
  {
    if |pairs| == 0 then []
    else [PairString(pairs[0], floatText)] + PairStrings(pairs[1..], floatText)
  }

  function PairString(p: Pair, floatText: seq<byte> -> string): string
  {
    ToString(p.key, floatText) + " : " + ToString(p.value, floatText)
  }

  /** An integer's text reads back as its unsigned value, so a negative one prints as 2^64 plus it. */
  lemma IntegerTextRoundTrip(v: int, floatText: seq<byte> -> string)
    requires FitsSigned(v, 64)
    ensures var s := ToString(FromSigned(v), floatText);
      (forall i :: 0 <= i < |s| ==> '0' <= s[i] <= '9') &&
      DecimalValue(s) == (if v < 0 then v + TWO_64 else v)
  {
    DecimalRoundTrip(if v < 0 then v + TWO_64 else v);
  }
}
