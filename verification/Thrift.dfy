/**
 The binary wire format of a footer, with the type codes that the preview's reader uses: where
 each kind of value ends, what an encoded value looks like, and that the two agree.
 */
module Thrift {
  import opened Prelude

  const T_STOP: byte := 0
  const T_BOOL: byte := 2
  const T_BYTE: byte := 3
  const T_DOUBLE: byte := 4
  const T_I16: byte := 5
  const T_I32: byte := 6
  const T_I64: byte := 8
  const T_BINARY: byte := 11
  const T_STRUCT: byte := 12
  const T_MAP: byte := 13
  const T_SET: byte := 14
  const T_LIST: byte := 15

  // ----- reading numbers; a byte past the end of the buffer reads as zero

  function ByteAt(buf: seq<byte>, p: nat): byte { if p < |buf| then buf[p] else 0 }

  function U16At(buf: seq<byte>, p: nat): (n: nat)
    ensures n < 0x1_0000
  {
    256 * ByteAt(buf, p) + ByteAt(buf, p + 1)
  }

  function U32At(buf: seq<byte>, p: nat): (n: nat)
    ensures n < 0x1_0000_0000
  {
    0x1_0000 * U16At(buf, p) + U16At(buf, p + 2)
  }

  function I16At(buf: seq<byte>, p: nat): int {
    var v := U16At(buf, p);
    if v > 0x7fff then v - 0x1_0000 else v
  }

  function I32At(buf: seq<byte>, p: nat): int {
    var v := U32At(buf, p);
    if v > 0x7fff_ffff then v - 0x1_0000_0000 else v
  }

  function I64At(buf: seq<byte>, p: nat): int {
    I32At(buf, p) * 0x1_0000_0000 + U32At(buf, p + 4)
  }

  lemma UnsignedHalf(buf: seq<byte>, p: nat)
    ensures I32At(buf, p) % 0x1_0000_0000 == U32At(buf, p)
  {
    hide U32At;
  }

  // ----- where a value ends; `None` is the reader's end-of-file error

  /** Bytes left. The cursor may stand past the end of the buffer. */
  function Left(buf: seq<byte>, p: nat): nat { if p < |buf| then |buf| - p else 0 }

  function ValueEnd(buf: seq<byte>, t: byte, p: nat): (r: Option<nat>)
    ensures r.Some? ==> r.value >= p
    decreases Left(buf, p), 1, 0
  {
    if t == T_BOOL || t == T_BYTE then Some(p + 1)
    else if t == T_I16 then Some(p + 2)
    else if t == T_I32 then Some(p + 4)
    else if t == T_I64 || t == T_DOUBLE then Some(p + 8)
    else if t == T_BINARY then Some(p + 4 + Max(0, I32At(buf, p)))
    else if t == T_STRUCT then StructEnd(buf, p)
    else if t == T_LIST || t == T_SET then ListEnd(buf, p)
    else if t == T_MAP then MapEnd(buf, p)
    else Some(p)
  }

  function StructEnd(buf: seq<byte>, p: nat): (r: Option<nat>)
    ensures r.Some? ==> r.value >= p
    decreases Left(buf, p), 0, 0
  {
    if p >= |buf| then None
    else if buf[p] == T_STOP then Some(p + 1)
    else
      match ValueEnd(buf, buf[p], p + 3)
      case None => None
      case Some(q) => StructEnd(buf, q)
  }

  function ListEnd(buf: seq<byte>, p: nat): (r: Option<nat>)
    ensures r.Some? ==> r.value >= p
    decreases Left(buf, p), 0, 0
  {
    if p >= |buf| then None else ElementsEnd(buf, buf[p], I32At(buf, p + 1), p + 5)
  }

  function MapEnd(buf: seq<byte>, p: nat): (r: Option<nat>)
    ensures r.Some? ==> r.value >= p
    decreases Left(buf, p), 0, 0
  {
    if p + 1 >= |buf| then None else PairsEnd(buf, buf[p], buf[p + 1], I32At(buf, p + 2), p + 6)
  }

  function ElementsEnd(buf: seq<byte>, t: byte, n: int, p: nat): (r: Option<nat>)
    ensures r.Some? ==> r.value >= p
    decreases Left(buf, p), 2, Max(0, n)
  {
    if n <= 0 then Some(p)
    else
      match ValueEnd(buf, t, p)
      case None => None
      case Some(q) => ElementsEnd(buf, t, n - 1, q)
  }

  function PairsEnd(buf: seq<byte>, kt: byte, vt: byte, n: int, p: nat): (r: Option<nat>)
    ensures r.Some? ==> r.value >= p
    decreases Left(buf, p), 2, Max(0, n)
  {
    if n <= 0 then Some(p)
    else
      match ValueEnd(buf, kt, p)
      case None => None
      case Some(q) =>
        match ValueEnd(buf, vt, q)
        case None => None
        case Some(r) => PairsEnd(buf, kt, vt, n - 1, r)
  }

  // ----- values and their encoding

  datatype Value =
    | Bool(bool8: byte)
    | Byte(int8: byte)
    | I16(n: int)
    | I32(n: int)
    | I64(n: int)
    | Double(bits: seq<byte>)
    | Binary(content: seq<byte>)
    | Struct(fields: Fields)
    | List(et: byte, elems: Values)
    | Set(et: byte, elems: Values)
    | Map(kt: byte, vt: byte, pairs: Pairs)

  datatype Fields = Stop | Field(id: int, value: Value, rest: Fields)

  datatype Values = Empty | Elem(head: Value, tail: Values)

  datatype Pairs = NoPair | Pair(key: Value, value: Value, rest: Pairs)

  function Code(v: Value): byte {
    match v
    case Bool(_) => T_BOOL
    case Byte(_) => T_BYTE
    case I16(_) => T_I16
    case I32(_) => T_I32
    case I64(_) => T_I64
    case Double(_) => T_DOUBLE
    case Binary(_) => T_BINARY
    case Struct(_) => T_STRUCT
    case List(_, _) => T_LIST
    case Set(_, _) => T_SET
    case Map(_, _, _) => T_MAP
  }

  function Count(l: Values): nat { if l.Empty? then 0 else 1 + Count(l.tail) }

  function CountPairs(l: Pairs): nat { if l.NoPair? then 0 else 1 + CountPairs(l.rest) }

  /** Numbers in range, lengths below 2^31, elements of the announced type. */
  predicate WellFormed(v: Value)
    decreases v
  {
    match v
    case Bool(_) => true
    case Byte(_) => true
    case I16(n) => IsI16(n)
    case I32(n) => IsI32(n)
    case I64(n) => -0x8000_0000_0000_0000 <= n < 0x8000_0000_0000_0000
    case Double(bits) => |bits| == 8
    case Binary(content) => |content| < 0x8000_0000
    case Struct(fields) => WellFormedFields(fields)
    case List(et, elems) => Count(elems) < 0x8000_0000 && WellFormedValues(et, elems)
    case Set(et, elems) => Count(elems) < 0x8000_0000 && WellFormedValues(et, elems)
    case Map(kt, vt, pairs) => CountPairs(pairs) < 0x8000_0000 && WellFormedPairs(kt, vt, pairs)
  }

  predicate IsI16(n: int) { -0x8000 <= n < 0x8000 }

  predicate IsI32(n: int) { -0x8000_0000 <= n < 0x8000_0000 }

  predicate WellFormedFields(l: Fields)
    decreases l
  {
    l.Field? ==> IsI16(l.id) && WellFormed(l.value) && WellFormedFields(l.rest)
  }

  predicate WellFormedValues(t: byte, l: Values)
    decreases l
  {
    l.Elem? ==> Code(l.head) == t && WellFormed(l.head) && WellFormedValues(t, l.tail)
  }

  predicate WellFormedPairs(kt: byte, vt: byte, l: Pairs)
    decreases l
  {
    l.Pair? ==>
      && Code(l.key) == kt && WellFormed(l.key)
      && Code(l.value) == vt && WellFormed(l.value)
      && WellFormedPairs(kt, vt, l.rest)
  }

  /** Big-endian bytes of a number, two's complement. */
  function Bytes2(n: int): (s: seq<byte>)
    ensures |s| == 2
  {
    [n / 256 % 256, n % 256]
  }

  function Bytes4(n: int): (s: seq<byte>)
    ensures |s| == 4
  {
    Bytes2(n / 0x1_0000) + Bytes2(n)
  }

  function Bytes8(n: int): (s: seq<byte>)
    ensures |s| == 8
  {
    Bytes4(n / 0x1_0000_0000) + Bytes4(n)
  }

  function Encode(v: Value): seq<byte> {
    match v
    case Bool(x) => [x]
    case Byte(x) => [x]
    case I16(n) => Bytes2(n)
    case I32(n) => Bytes4(n)
    case I64(n) => Bytes8(n)
    case Double(bits) => bits
    case Binary(content) => Bytes4(|content|) + content
    case Struct(fields) => EncodeFields(fields)
    case List(et, elems) => [et] + Bytes4(Count(elems)) + EncodeValues(elems)
    case Set(et, elems) => [et] + Bytes4(Count(elems)) + EncodeValues(elems)
    case Map(kt, vt, pairs) => [kt] + [vt] + Bytes4(CountPairs(pairs)) + EncodePairs(pairs)
  }

  function EncodeFields(l: Fields): seq<byte> {
    match l
    case Stop => [T_STOP]
    case Field(id, value, rest) => [Code(value)] + Bytes2(id) + Encode(value) + EncodeFields(rest)
  }

  function EncodeValues(l: Values): seq<byte> {
    match l
    case Empty => []
    case Elem(head, tail) => Encode(head) + EncodeValues(tail)
  }

  function EncodePairs(l: Pairs): seq<byte> {
    match l
    case NoPair => []
    case Pair(key, value, rest) => Encode(key) + Encode(value) + EncodePairs(rest)
  }

  // ----- reading back encoded numbers

  lemma Read2(buf: seq<byte>, p: nat, n: int)
    requires At(buf, p, Bytes2(n))
    ensures U16At(buf, p) == n % 0x1_0000
  {
    var hi, lo := n / 256 % 256, n % 256;
    assert Bytes2(n) == [hi, lo];
    assert buf[p] == buf[p..p + 2][0] == hi && buf[p + 1] == buf[p..p + 2][1] == lo;
    TwoDigits(n);
  }

  lemma TwoDigits(n: int)
    ensures 256 * (n / 256 % 256) + n % 256 == n % 0x1_0000
  {
  }

  lemma ReadI16(buf: seq<byte>, p: nat, n: int)
    requires At(buf, p, Bytes2(n)) && IsI16(n)
    ensures I16At(buf, p) == n
  {
    Read2(buf, p, n);
  }

  lemma WordHalves(n: int)
    ensures 0x1_0000 * (n / 0x1_0000 % 0x1_0000) + n % 0x1_0000 == n % 0x1_0000_0000
  {
    var hi := n / 0x1_0000;
    assert n == 0x1_0000 * hi + n % 0x1_0000;
    assert hi == 0x1_0000 * (hi / 0x1_0000) + hi % 0x1_0000;
  }

  lemma Read4(buf: seq<byte>, p: nat, n: int)
    requires At(buf, p, Bytes4(n))
    ensures U32At(buf, p) == n % 0x1_0000_0000
  {
    hide Bytes2, U16At, At;
    AtConcat(buf, p, Bytes2(n / 0x1_0000), Bytes2(n));
    Read2(buf, p, n / 0x1_0000);
    Read2(buf, p + 2, n);
    WordHalves(n);
  }

  lemma ReadI32(buf: seq<byte>, p: nat, n: int)
    requires At(buf, p, Bytes4(n)) && IsI32(n)
    ensures I32At(buf, p) == n
  {
    Read4(buf, p, n);
  }

  lemma ReadI64(buf: seq<byte>, p: nat, n: int)
    requires At(buf, p, Bytes8(n)) && WellFormed(I64(n))
    ensures I64At(buf, p) == n
  {
    AtConcat(buf, p, Bytes4(n / 0x1_0000_0000), Bytes4(n));
    ReadI32(buf, p, n / 0x1_0000_0000);
    Read4(buf, p + 4, n);
  }

  // ----- skipping an encoded value passes over exactly its bytes

  lemma {:induction false} SkipsValue(buf: seq<byte>, p: nat, v: Value)
    requires WellFormed(v) && At(buf, p, Encode(v))
    ensures ValueEnd(buf, Code(v), p) == Some(p + |Encode(v)|)
    decreases v, 1
  {
    hide At, I32At, Bytes2, Bytes4, Bytes8, StructEnd, ListEnd, MapEnd, EncodeFields, EncodeValues, EncodePairs;
    match v
    case Bool(_) =>
    case Byte(_) =>
    case I16(_) =>
    case I32(_) =>
    case I64(_) =>
    case Double(_) =>
    case Binary(content) =>
      AtConcat(buf, p, Bytes4(|content|), content);
      ReadI32(buf, p, |content|);
    case Struct(fields) => SkipsFields(buf, p, fields);
    case List(et, elems) => SkipsElements(buf, p, et, elems);
    case Set(et, elems) => SkipsElements(buf, p, et, elems);
    case Map(kt, vt, pairs) => SkipsPairs(buf, p, kt, vt, pairs);
  }

  lemma OneByte(buf: seq<byte>, p: nat, x: byte)
    requires At(buf, p, [x])
    ensures p < |buf| && buf[p] == x
  {
    assert buf[p] == buf[p..p + 1][0];
  }

  /** One field: its type, its id and its value. */
  function FieldBytes(id: int, v: Value): seq<byte> { [Code(v)] + Bytes2(id) + Encode(v) }

  lemma OneField(buf: seq<byte>, p: nat, id: int, v: Value)
    requires IsI16(id) && At(buf, p, FieldBytes(id, v))
    ensures p < |buf| && buf[p] == Code(v) != T_STOP && I16At(buf, p + 1) == id
    ensures At(buf, p + 3, Encode(v)) && |FieldBytes(id, v)| == 3 + |Encode(v)|
  {
    hide Encode, At, I16At;
    AtConcat(buf, p, [Code(v)] + Bytes2(id), Encode(v));
    AtConcat(buf, p, [Code(v)], Bytes2(id));
    OneByte(buf, p, Code(v));
    ReadI16(buf, p + 1, id);
  }

  lemma FieldHeader(buf: seq<byte>, p: nat, l: Fields)
    requires l.Field? && WellFormedFields(l) && At(buf, p, EncodeFields(l))
    ensures At(buf, p, FieldBytes(l.id, l.value))
    ensures p < |buf| && buf[p] == Code(l.value) != T_STOP && I16At(buf, p + 1) == l.id
    ensures At(buf, p + 3, Encode(l.value))
    ensures At(buf, p + 3 + |Encode(l.value)|, EncodeFields(l.rest))
    ensures |EncodeFields(l)| == 3 + |Encode(l.value)| + |EncodeFields(l.rest)|
  {
    hide Encode, At, I16At;
    AtConcat(buf, p, FieldBytes(l.id, l.value), EncodeFields(l.rest));
    OneField(buf, p, l.id, l.value);
  }

  lemma StopByte(buf: seq<byte>, p: nat)
    requires At(buf, p, EncodeFields(Stop))
    ensures p < |buf| && buf[p] == T_STOP
  {
    OneByte(buf, p, T_STOP);
  }

  lemma {:induction false} SkipsFields(buf: seq<byte>, p: nat, l: Fields)
    requires WellFormedFields(l) && At(buf, p, EncodeFields(l))
    ensures StructEnd(buf, p) == Some(p + |EncodeFields(l)|)
    decreases l, 0
  {
    hide ValueEnd, Encode;
    match l
    case Stop => StopByte(buf, p);
    case Field(_, value, rest) =>
      FieldHeader(buf, p, l);
      SkipsValue(buf, p + 3, value);
      SkipsFields(buf, p + 3 + |Encode(value)|, rest);
  }

  lemma ListHeader(buf: seq<byte>, p: nat, et: byte, elems: Values)
    requires Count(elems) < 0x8000_0000
    requires At(buf, p, [et] + Bytes4(Count(elems)) + EncodeValues(elems))
    ensures p < |buf| && buf[p] == et && I32At(buf, p + 1) == Count(elems)
    ensures At(buf, p + 5, EncodeValues(elems))
  {
    AtConcat(buf, p, [et] + Bytes4(Count(elems)), EncodeValues(elems));
    AtConcat(buf, p, [et], Bytes4(Count(elems)));
    OneByte(buf, p, et);
    ReadI32(buf, p + 1, Count(elems));
  }

  lemma {:induction false} SkipsElements(buf: seq<byte>, p: nat, et: byte, elems: Values)
    requires Count(elems) < 0x8000_0000 && WellFormedValues(et, elems)
    requires At(buf, p, [et] + Bytes4(Count(elems)) + EncodeValues(elems))
    ensures ListEnd(buf, p) == Some(p + 5 + |EncodeValues(elems)|)
    decreases elems, 1
  {
    ListHeader(buf, p, et, elems);
    SkipsValues(buf, p + 5, et, elems);
  }

  lemma {:induction false} SkipsValues(buf: seq<byte>, p: nat, t: byte, l: Values)
    requires WellFormedValues(t, l) && At(buf, p, EncodeValues(l))
    ensures ElementsEnd(buf, t, Count(l), p) == Some(p + |EncodeValues(l)|)
    decreases l, 0
  {
    hide ValueEnd, Encode;
    if l.Elem? {
      AtConcat(buf, p, Encode(l.head), EncodeValues(l.tail));
      SkipsValue(buf, p, l.head);
      SkipsValues(buf, p + |Encode(l.head)|, t, l.tail);
    }
  }

  lemma {:induction false} SkipsPairs(buf: seq<byte>, p: nat, kt: byte, vt: byte, pairs: Pairs)
    requires CountPairs(pairs) < 0x8000_0000 && WellFormedPairs(kt, vt, pairs)
    requires At(buf, p, [kt] + [vt] + Bytes4(CountPairs(pairs)) + EncodePairs(pairs))
    ensures MapEnd(buf, p) == Some(p + 6 + |EncodePairs(pairs)|)
    decreases pairs, 2
  {
    var n := CountPairs(pairs);
    AtConcat(buf, p, [kt] + [vt] + Bytes4(n), EncodePairs(pairs));
    AtConcat(buf, p, [kt] + [vt], Bytes4(n));
    assert buf[p] == buf[p..p + 2][0] && buf[p + 1] == buf[p..p + 2][1];
    ReadI32(buf, p + 2, n);
    SkipsPairList(buf, p + 6, kt, vt, pairs);
  }

  lemma PairParts(buf: seq<byte>, p: nat, l: Pairs)
    requires l.Pair? && At(buf, p, EncodePairs(l))
    ensures At(buf, p, Encode(l.key)) && At(buf, p + |Encode(l.key)|, Encode(l.value))
    ensures At(buf, p + |Encode(l.key)| + |Encode(l.value)|, EncodePairs(l.rest))
    ensures |EncodePairs(l)| == |Encode(l.key)| + |Encode(l.value)| + |EncodePairs(l.rest)|
  {
    hide Encode, At;
    AtConcat(buf, p, Encode(l.key) + Encode(l.value), EncodePairs(l.rest));
    AtConcat(buf, p, Encode(l.key), Encode(l.value));
  }

  lemma PairsStep(buf: seq<byte>, kt: byte, vt: byte, n: nat, p: nat, q: nat, r: nat)
    requires n > 0 && ValueEnd(buf, kt, p) == Some(q) && ValueEnd(buf, vt, q) == Some(r)
    ensures PairsEnd(buf, kt, vt, n, p) == PairsEnd(buf, kt, vt, n - 1, r)
  {
  }

  lemma {:induction false} SkipsPair(buf: seq<byte>, p: nat, kt: byte, vt: byte, l: Pairs)
    requires l.Pair? && WellFormedPairs(kt, vt, l) && At(buf, p, EncodePairs(l))
    ensures ValueEnd(buf, kt, p) == Some(p + |Encode(l.key)|)
    ensures ValueEnd(buf, vt, p + |Encode(l.key)|) == Some(p + |Encode(l.key)| + |Encode(l.value)|)
    decreases l, 0
  {
    hide ValueEnd, Encode;
    PairParts(buf, p, l);
    SkipsValue(buf, p, l.key);
    SkipsValue(buf, p + |Encode(l.key)|, l.value);
  }

  lemma {:induction false} SkipsPairList(buf: seq<byte>, p: nat, kt: byte, vt: byte, l: Pairs)
    requires WellFormedPairs(kt, vt, l) && At(buf, p, EncodePairs(l))
    ensures PairsEnd(buf, kt, vt, CountPairs(l), p) == Some(p + |EncodePairs(l)|)
    decreases l, 1
  {
    hide ValueEnd, Encode;
    if l.Pair? {
      PairParts(buf, p, l);
      var q := p + |Encode(l.key)|;
      var r := q + |Encode(l.value)|;
      SkipsPair(buf, p, kt, vt, l);
      SkipsPairList(buf, r, kt, vt, l.rest);
      PairsStep(buf, kt, vt, CountPairs(l), p, q, r);
    }
  }
}
