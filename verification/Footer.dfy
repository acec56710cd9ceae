/**
 Decoding of a Parquet footer by the preview: the decoder as a function of the bytes, the
 meaning of a metadata structure, and the round trip between them.
 */
module Footer {
  import opened Prelude
  import opened Thrift
  import opened Doubles

  // ----- what the decoder builds

  datatype Column = Column(name: string, kind: string, repetition: string)

  /** The fields of a schema element that have been seen. */
  datatype Element = Element(kind: Option<string>, repetition: Option<string>,
                             name: Option<string>, numChildren: Option<int>)

  const NO_ELEMENT := Element(None, None, None, None)

  datatype Summary = Summary(version: int, numRows: int, rowGroupCount: int, totalByteSize: int,
                             columns: seq<Column>, truncated: bool)

  const NO_SUMMARY := Summary(0, 0, 0, 0, [], false)

  function KindName(n: int): string {
    match n
    case 0 => "BOOLEAN"
    case 1 => "INT32"
    case 2 => "INT64"
    case 3 => "INT96"
    case 4 => "FLOAT"
    case 5 => "DOUBLE"
    case 6 => "BYTE_ARRAY"
    case 7 => "FIXED_LEN_BYTE_ARRAY"
    case _ => "UNKNOWN"
  }

  function RepetitionName(n: int): string {
    match n
    case 0 => "REQUIRED"
    case 1 => "OPTIONAL"
    case 2 => "REPEATED"
    case _ => "OPTIONAL"
  }

  /** Only named leaves of the schema are columns. */
  function ColumnOf(e: Element): seq<Column> {
    if (e.numChildren.None? || e.numChildren.value == 0) && e.name.Some? && e.name.value != "" then
      [Column(e.name.value,
              if e.kind.Some? then e.kind.value else "UNKNOWN",
              if e.repetition.Some? then e.repetition.value else "OPTIONAL")]
    else []
  }

  /** UTF-8 decoding of a byte string, which this model leaves abstract. */
  type Decoder = seq<byte> -> string

  // ----- the decoder

  /** A length-prefixed string; a length that does not fit reads as the empty string. */
  function BinaryAt(buf: seq<byte>, p: nat, utf8: Decoder): (string, nat) {
    var len := I32At(buf, p);
    if len < 0 || len > |buf| - (p + 4) then ("", p + 4)
    else (utf8(buf[p + 4..p + 4 + len]), p + 4 + len)
  }

  function ElementAt(buf: seq<byte>, p: nat, e: Element, utf8: Decoder): (r: Option<(Element, nat)>)
    ensures r.Some? ==> r.value.1 > p
    decreases Left(buf, p)
  {
    if p >= |buf| then None
    else if buf[p] == T_STOP then Some((e, p + 1))
    else
      var t, id, q := buf[p], I16At(buf, p + 1), p + 3;
      if id == 1 && t == T_I32 then ElementAt(buf, q + 4, e.(kind := Some(KindName(I32At(buf, q)))), utf8)
      else if id == 2 && t == T_I32 then ElementAt(buf, q + 4, e, utf8)
      else if id == 3 && t == T_I32 then
        ElementAt(buf, q + 4, e.(repetition := Some(RepetitionName(I32At(buf, q)))), utf8)
      else if id == 4 && t == T_BINARY then
        var (s, q') := BinaryAt(buf, q, utf8);
        ElementAt(buf, q', e.(name := Some(s)), utf8)
      else if id == 5 && t == T_I32 then ElementAt(buf, q + 4, e.(numChildren := Some(I32At(buf, q))), utf8)
      else
        match ValueEnd(buf, t, q)
        case None => None
        case Some(q') => ElementAt(buf, q', e, utf8)
  }

  function GroupAt(buf: seq<byte>, p: nat, total: int): (r: Option<(int, nat)>)
    ensures r.Some? ==> r.value.1 > p
    decreases Left(buf, p)
  {
    if p >= |buf| then None
    else if buf[p] == T_STOP then Some((total, p + 1))
    else if I16At(buf, p + 1) == 3 && buf[p] == T_I64 then
      GroupAt(buf, p + 11, ToDouble(total + ToDouble(I64At(buf, p + 3))))
    else
      match ValueEnd(buf, buf[p], p + 3)
      case None => None
      case Some(q) => GroupAt(buf, q, total)
  }

  /** The columns of a list of `n` schema elements; the position is absent after an error. */
  function SchemaAt(buf: seq<byte>, et: byte, n: int, p: nat, columns: seq<Column>, utf8: Decoder)
    : (r: (seq<Column>, Option<nat>))
    ensures r.1.Some? ==> r.1.value >= p
    decreases Max(0, n)
  {
    if n <= 0 then (columns, Some(p))
    else if et == T_STRUCT then
      match ElementAt(buf, p, NO_ELEMENT, utf8)
      case None => (columns, None)
      case Some((e, q)) => SchemaAt(buf, et, n - 1, q, columns + ColumnOf(e), utf8)
    else
      match ValueEnd(buf, et, p)
      case None => (columns, None)
      case Some(q) => SchemaAt(buf, et, n - 1, q, columns, utf8)
  }

  function GroupsAt(buf: seq<byte>, et: byte, n: int, p: nat, total: int): (r: (int, Option<nat>))
    ensures r.1.Some? ==> r.1.value >= p
    decreases Max(0, n)
  {
    if n <= 0 then (total, Some(p))
    else if et == T_STRUCT then
      match GroupAt(buf, p, 0)
      case None => (total, None)
      case Some((size, q)) => GroupsAt(buf, et, n - 1, q, ToDouble(total + size))
    else
      match ValueEnd(buf, et, p)
      case None => (total, None)
      case Some(q) => GroupsAt(buf, et, n - 1, q, total)
  }

  /** The main loop. What was read before an error is kept. */
  function SummaryAt(buf: seq<byte>, p: nat, acc: Summary, utf8: Decoder): Summary
    decreases Left(buf, p)
  {
    if p >= |buf| then acc.(truncated := true)
    else if buf[p] == T_STOP then acc
    else
      var t, id, q := buf[p], I16At(buf, p + 1), p + 3;
      if id == 1 && t == T_I32 then SummaryAt(buf, q + 4, acc.(version := I32At(buf, q)), utf8)
      else if id == 2 && t == T_LIST then
        if q >= |buf| then acc.(truncated := true)
        else
          var (columns, end) := SchemaAt(buf, buf[q], I32At(buf, q + 1), q + 5, acc.columns, utf8);
          if end.None? then acc.(columns := columns, truncated := true)
          else SummaryAt(buf, end.value, acc.(columns := columns), utf8)
      else if id == 3 && t == T_I64 then SummaryAt(buf, q + 8, acc.(numRows := ToDouble(I64At(buf, q))), utf8)
      else if id == 4 && t == T_LIST then
        if q >= |buf| then acc.(truncated := true)
        else
          var n := I32At(buf, q + 1);
          var (total, end) := GroupsAt(buf, buf[q], n, q + 5, acc.totalByteSize);
          if end.None? then acc.(rowGroupCount := n, totalByteSize := total, truncated := true)
          else SummaryAt(buf, end.value, acc.(rowGroupCount := n, totalByteSize := total), utf8)
      else
        match ValueEnd(buf, t, q)
        case None => acc.(truncated := true)
        case Some(q') => SummaryAt(buf, q', acc, utf8)
  }

  const MAGIC: seq<byte> := [0x50, 0x41, 0x52, 0x31]

  function LittleEndianAt(b: seq<byte>, p: nat): nat
    requires p + 4 <= |b|
  {
    var b0: int, b1: int, b2: int, b3: int := b[p], b[p + 1], b[p + 2], b[p + 3];
    b0 + 0x100 * b1 + 0x1_0000 * b2 + 0x100_0000 * b3
  }

  /** `None` is a file that is not Parquet. The trailing magic is not looked at. */
  function Parsed(bytes: seq<byte>, utf8: Decoder): Option<Summary> {
    if |bytes| < 12 || bytes[..4] != MAGIC then None
    else
      var tail := |bytes| - 8;
      var len := LittleEndianAt(bytes, tail);
      if len == 0 || len > tail then Some(NO_SUMMARY.(truncated := true))
      else Some(SummaryAt(bytes[tail - len..tail], 0, NO_SUMMARY, utf8))
  }

  // ----- the meaning of a metadata structure

  /** The last field with an id and a type, if any. */
  function Lookup(l: Fields, id: int, t: byte): (r: Option<Value>)
    ensures r.Some? ==> Code(r.value) == t
  {
    match l
    case Stop => None
    case Field(i, v, rest) =>
      var later := Lookup(rest, id, t);
      if later.Some? then later else if i == id && Code(v) == t then Some(v) else None
  }

  function Int32Of(l: Fields, id: int): Option<int> {
    match Lookup(l, id, T_I32)
    case Some(v) => Some(v.n)
    case None => None
  }

  function MapInt(n: Option<int>, f: int -> string): Option<string> {
    match n
    case Some(x) => Some(f(x))
    case None => None
  }

  function ElementOf(l: Fields, utf8: Decoder): Element {
    Element(MapInt(Int32Of(l, 1), KindName),
            MapInt(Int32Of(l, 3), RepetitionName),
            (match Lookup(l, 4, T_BINARY) case Some(v) => Some(utf8(v.content)) case None => None),
            Int32Of(l, 5))
  }

  /** The named leaves among the schema elements, in order. */
  function SchemaColumns(l: Values, utf8: Decoder): seq<Column> {
    match l
    case Empty => []
    case Elem(head, tail) =>
      (if head.Struct? then ColumnOf(ElementOf(head.fields, utf8)) else []) + SchemaColumns(tail, utf8)
  }

  function Columns(l: Fields, utf8: Decoder): seq<Column> {
    match l
    case Stop => []
    case Field(id, v, rest) =>
      (if id == 2 && v.List? then SchemaColumns(v.elems, utf8) else []) + Columns(rest, utf8)
  }

  /** Sizes of one row group, added up in doubles. */
  function GroupSize(l: Fields, acc: int): int {
    match l
    case Stop => acc
    case Field(id, v, rest) =>
      GroupSize(rest, if id == 3 && v.I64? then ToDouble(acc + ToDouble(v.n)) else acc)
  }

  function GroupsSize(l: Values, acc: int): int {
    match l
    case Empty => acc
    case Elem(head, tail) =>
      GroupsSize(tail, if head.Struct? then ToDouble(acc + GroupSize(head.fields, 0)) else acc)
  }

  function TotalSize(l: Fields, acc: int): int {
    match l
    case Stop => acc
    case Field(id, v, rest) => TotalSize(rest, if id == 4 && v.List? then GroupsSize(v.elems, acc) else acc)
  }

  function Version(l: Fields): int {
    match Int32Of(l, 1) case Some(n) => n case None => 0
  }

  function NumRows(l: Fields): int {
    match Lookup(l, 3, T_I64) case Some(v) => ToDouble(v.n) case None => 0
  }

  function GroupCount(l: Fields): int {
    match Lookup(l, 4, T_LIST) case Some(v) => Count(v.elems) case None => 0
  }

  function Meaning(l: Fields, utf8: Decoder): Summary {
    Summary(Version(l), NumRows(l), GroupCount(l), TotalSize(l, 0), Columns(l, utf8), false)
  }

  // ----- decoding an encoded structure gives its meaning

  function OrElse<T>(a: Option<T>, b: Option<T>): Option<T> { if a.Some? then a else b }

  /** What a schema element holds after the fields `l` have been read on top of `e`. */
  function Over(l: Fields, e: Element, utf8: Decoder): Element {
    var m := ElementOf(l, utf8);
    Element(OrElse(m.kind, e.kind), OrElse(m.repetition, e.repetition), OrElse(m.name, e.name),
            OrElse(m.numChildren, e.numChildren))
  }

  lemma BinaryRead(buf: seq<byte>, p: nat, content: seq<byte>, utf8: Decoder)
    requires |content| < 0x8000_0000 && At(buf, p, Bytes4(|content|) + content)
    ensures BinaryAt(buf, p, utf8) == (utf8(content), p + 4 + |content|)
  {
    AtConcat(buf, p, Bytes4(|content|), content);
    ReadI32(buf, p, |content|);
  }

  /** One field read into a schema element. */
  function Absorb(id: int, v: Value, e: Element, utf8: Decoder): Element {
    if id == 1 && v.I32? then e.(kind := Some(KindName(v.n)))
    else if id == 3 && v.I32? then e.(repetition := Some(RepetitionName(v.n)))
    else if id == 4 && v.Binary? then e.(name := Some(utf8(v.content)))
    else if id == 5 && v.I32? then e.(numChildren := Some(v.n))
    else e
  }

  lemma ElementStep(buf: seq<byte>, p: nat, l: Fields, e: Element, utf8: Decoder)
    requires l.Field? && WellFormedFields(l) && At(buf, p, EncodeFields(l))
    ensures ElementAt(buf, p, e, utf8) ==
            ElementAt(buf, p + 3 + |Encode(l.value)|, Absorb(l.id, l.value, e, utf8), utf8)
  {
    hide KindName, RepetitionName, ValueEnd, I16At, BinaryAt;
    FieldHeader(buf, p, l);
    if l.value.I32? {
      ReadI32(buf, p + 3, l.value.n);
    } else if l.value.Binary? {
      BinaryRead(buf, p + 3, l.value.content, utf8);
    }
    SkipsValue(buf, p + 3, l.value);
  }

  lemma AbsorbIsOver(id: int, v: Value, rest: Fields, e: Element, utf8: Decoder)
    ensures Over(rest, Absorb(id, v, e, utf8), utf8) == Over(Field(id, v, rest), e, utf8)
  {
  }

  lemma ElementStop(buf: seq<byte>, p: nat, e: Element, utf8: Decoder)
    requires At(buf, p, EncodeFields(Stop))
    ensures ElementAt(buf, p, e, utf8) == Some((Over(Stop, e, utf8), p + 1))
  {
    StopByte(buf, p);
  }

  lemma {:induction false} ElementRead(buf: seq<byte>, p: nat, l: Fields, e: Element, utf8: Decoder)
    requires WellFormedFields(l) && At(buf, p, EncodeFields(l))
    ensures ElementAt(buf, p, e, utf8) == Some((Over(l, e, utf8), p + |EncodeFields(l)|))
    decreases l
  {
    hide Encode, ElementAt, Over;
    match l
    case Stop => ElementStop(buf, p, e, utf8);
    case Field(id, v, rest) =>
      FieldHeader(buf, p, l);
      ElementStep(buf, p, l, e, utf8);
      ElementRead(buf, p + 3 + |Encode(v)|, rest, Absorb(id, v, e, utf8), utf8);
      AbsorbIsOver(id, v, rest, e, utf8);
  }

  /** One field read into the size of a row group. */
  function AbsorbSize(id: int, v: Value, acc: int): int {
    if id == 3 && v.I64? then ToDouble(acc + ToDouble(v.n)) else acc
  }

  lemma GroupAtField(buf: seq<byte>, p: nat, id: int, t: byte, acc: int)
    requires p < |buf| && buf[p] == t != T_STOP && I16At(buf, p + 1) == id
    ensures GroupAt(buf, p, acc) ==
            if id == 3 && t == T_I64 then GroupAt(buf, p + 11, ToDouble(acc + ToDouble(I64At(buf, p + 3))))
            else match ValueEnd(buf, t, p + 3) case None => None case Some(q) => GroupAt(buf, q, acc)
  {
    hide ToDouble, ValueEnd, I64At, I16At;
  }

  lemma GroupStep(buf: seq<byte>, p: nat, l: Fields, acc: int)
    requires l.Field? && WellFormedFields(l) && At(buf, p, EncodeFields(l))
    ensures GroupAt(buf, p, acc) == GroupAt(buf, p + 3 + |Encode(l.value)|, AbsorbSize(l.id, l.value, acc))
  {
    hide ToDouble, ValueEnd, I64At, I16At, At, EncodeFields, GroupAt;
    FieldHeader(buf, p, l);
    GroupAtField(buf, p, l.id, Code(l.value), acc);
    if l.id == 3 && l.value.I64? {
      ReadI64(buf, p + 3, l.value.n);
    } else {
      SkipsValue(buf, p + 3, l.value);
    }
  }

  lemma GroupStop(buf: seq<byte>, p: nat, acc: int)
    requires At(buf, p, EncodeFields(Stop))
    ensures GroupAt(buf, p, acc) == Some((acc, p + 1))
  {
    StopByte(buf, p);
  }

  lemma {:induction false} GroupRead(buf: seq<byte>, p: nat, l: Fields, acc: int)
    requires WellFormedFields(l) && At(buf, p, EncodeFields(l))
    ensures GroupAt(buf, p, acc) == Some((GroupSize(l, acc), p + |EncodeFields(l)|))
    decreases l
  {
    hide ToDouble, Encode, GroupAt, At;
    match l
    case Stop => GroupStop(buf, p, acc);
    case Field(id, v, rest) =>
      FieldHeader(buf, p, l);
      GroupStep(buf, p, l, acc);
      GroupRead(buf, p + 3 + |Encode(v)|, rest, AbsorbSize(id, v, acc));
  }

  lemma SchemaStep(buf: seq<byte>, et: byte, n: nat, p: nat, head: Value, columns: seq<Column>, utf8: Decoder)
    requires n > 0 && WellFormed(head) && Code(head) == et && At(buf, p, Encode(head))
    ensures SchemaAt(buf, et, n, p, columns, utf8) ==
            SchemaAt(buf, et, n - 1, p + |Encode(head)|,
                     columns + (if head.Struct? then ColumnOf(ElementOf(head.fields, utf8)) else []), utf8)
  {
    hide ElementAt, ValueEnd, ColumnOf;
    if head.Struct? {
      ElementRead(buf, p, head.fields, NO_ELEMENT, utf8);
    } else {
      SkipsValue(buf, p, head);
      assert columns + [] == columns;
    }
  }

  lemma {:induction false} SchemaRead(buf: seq<byte>, et: byte, p: nat, l: Values, columns: seq<Column>, utf8: Decoder)
    requires WellFormedValues(et, l) && At(buf, p, EncodeValues(l))
    ensures SchemaAt(buf, et, Count(l), p, columns, utf8) ==
            (columns + SchemaColumns(l, utf8), Some(p + |EncodeValues(l)|))
    decreases l
  {
    hide Encode, ElementAt, ValueEnd, ColumnOf, ElementOf;
    match l
    case Empty => assert columns + [] == columns;
    case Elem(head, tail) =>
      var own := if head.Struct? then ColumnOf(ElementOf(head.fields, utf8)) else [];
      AtConcat(buf, p, Encode(head), EncodeValues(tail));
      SchemaStep(buf, et, Count(l), p, head, columns, utf8);
      SchemaRead(buf, et, p + |Encode(head)|, tail, columns + own, utf8);
      assert columns + own + SchemaColumns(tail, utf8) == columns + (own + SchemaColumns(tail, utf8));
  }

  lemma GroupsStep(buf: seq<byte>, et: byte, n: nat, p: nat, head: Value, acc: int)
    requires n > 0 && WellFormed(head) && Code(head) == et && At(buf, p, Encode(head))
    ensures GroupsAt(buf, et, n, p, acc) ==
            GroupsAt(buf, et, n - 1, p + |Encode(head)|,
                     if head.Struct? then ToDouble(acc + GroupSize(head.fields, 0)) else acc)
  {
    hide GroupAt, ValueEnd, ToDouble, GroupSize;
    if head.Struct? {
      GroupRead(buf, p, head.fields, 0);
    } else {
      SkipsValue(buf, p, head);
    }
  }

  lemma {:induction false} GroupsRead(buf: seq<byte>, et: byte, p: nat, l: Values, acc: int)
    requires WellFormedValues(et, l) && At(buf, p, EncodeValues(l))
    ensures GroupsAt(buf, et, Count(l), p, acc) == (GroupsSize(l, acc), Some(p + |EncodeValues(l)|))
    decreases l
  {
    hide Encode, GroupAt, ValueEnd, ToDouble, GroupSize;
    match l
    case Empty =>
    case Elem(head, tail) =>
      AtConcat(buf, p, Encode(head), EncodeValues(tail));
      GroupsStep(buf, et, Count(l), p, head, acc);
      GroupsRead(buf, et, p + |Encode(head)|, tail,
                 if head.Struct? then ToDouble(acc + GroupSize(head.fields, 0)) else acc);
  }

  /** One field read into the summary. */
  function AbsorbMeta(id: int, v: Value, acc: Summary, utf8: Decoder): Summary {
    if id == 1 && v.I32? then acc.(version := v.n)
    else if id == 2 && v.List? then acc.(columns := acc.columns + SchemaColumns(v.elems, utf8))
    else if id == 3 && v.I64? then acc.(numRows := ToDouble(v.n))
    else if id == 4 && v.List? then
      acc.(rowGroupCount := Count(v.elems), totalByteSize := GroupsSize(v.elems, acc.totalByteSize))
    else acc
  }

  lemma SchemaFieldStep(buf: seq<byte>, p: nat, l: Fields, acc: Summary, utf8: Decoder)
    requires l.Field? && l.id == 2 && l.value.List?
    requires IsI16(l.id) && WellFormed(l.value) && At(buf, p, FieldBytes(l.id, l.value))
    ensures SummaryAt(buf, p, acc, utf8) ==
            SummaryAt(buf, p + 3 + |Encode(l.value)|, AbsorbMeta(l.id, l.value, acc, utf8), utf8)
  {
    hide SchemaAt, GroupsAt, SchemaColumns, GroupsSize, ValueEnd, ToDouble, I16At, I32At, I64At, At,
         FieldBytes, EncodeValues;
    OneField(buf, p, l.id, l.value);
    var q, v := p + 3, l.value;
    ListHeader(buf, q, v.et, v.elems);
    SchemaRead(buf, v.et, q + 5, v.elems, acc.columns, utf8);
  }

  lemma GroupsFieldStep(buf: seq<byte>, p: nat, l: Fields, acc: Summary, utf8: Decoder)
    requires l.Field? && l.id == 4 && l.value.List?
    requires IsI16(l.id) && WellFormed(l.value) && At(buf, p, FieldBytes(l.id, l.value))
    ensures SummaryAt(buf, p, acc, utf8) ==
            SummaryAt(buf, p + 3 + |Encode(l.value)|, AbsorbMeta(l.id, l.value, acc, utf8), utf8)
  {
    hide SchemaAt, GroupsAt, SchemaColumns, GroupsSize, ValueEnd, ToDouble, I16At, I32At, I64At, At,
         FieldBytes, EncodeValues;
    OneField(buf, p, l.id, l.value);
    var q, v := p + 3, l.value;
    ListHeader(buf, q, v.et, v.elems);
    GroupsRead(buf, v.et, q + 5, v.elems, acc.totalByteSize);
  }

  lemma SummaryStep(buf: seq<byte>, p: nat, l: Fields, acc: Summary, utf8: Decoder)
    requires l.Field? && IsI16(l.id) && WellFormed(l.value) && At(buf, p, FieldBytes(l.id, l.value))
    ensures SummaryAt(buf, p, acc, utf8) ==
            SummaryAt(buf, p + 3 + |Encode(l.value)|, AbsorbMeta(l.id, l.value, acc, utf8), utf8)
  {
    hide SchemaAt, GroupsAt, SchemaColumns, GroupsSize, ValueEnd, ToDouble, I16At, I32At, I64At, At,
         FieldBytes, EncodeValues;
    OneField(buf, p, l.id, l.value);
    var q, v := p + 3, l.value;
    if l.id == 1 && v.I32? {
      ReadI32(buf, q, v.n);
    } else if l.id == 3 && v.I64? {
      ReadI64(buf, q, v.n);
    } else if l.id == 2 && v.List? {
      SchemaFieldStep(buf, p, l, acc, utf8);
    } else if l.id == 4 && v.List? {
      GroupsFieldStep(buf, p, l, acc, utf8);
    } else {
      SkipsValue(buf, q, v);
    }
  }

  /** The summary after the fields `l` have been read on top of `acc`. */
  function OverMeta(l: Fields, acc: Summary, utf8: Decoder): Summary {
    Summary(if Int32Of(l, 1).Some? then Version(l) else acc.version,
            if Lookup(l, 3, T_I64).Some? then NumRows(l) else acc.numRows,
            if Lookup(l, 4, T_LIST).Some? then GroupCount(l) else acc.rowGroupCount,
            TotalSize(l, acc.totalByteSize),
            acc.columns + Columns(l, utf8),
            acc.truncated)
  }

  lemma AbsorbMetaIsOver(id: int, v: Value, rest: Fields, acc: Summary, utf8: Decoder)
    ensures OverMeta(rest, AbsorbMeta(id, v, acc, utf8), utf8) == OverMeta(Field(id, v, rest), acc, utf8)
  {
    hide ToDouble, SchemaColumns, GroupsSize;
    if id == 2 && v.List? {
      var own := SchemaColumns(v.elems, utf8);
      assert acc.columns + own + Columns(rest, utf8) == acc.columns + (own + Columns(rest, utf8));
    } else {
      assert [] + Columns(rest, utf8) == Columns(rest, utf8);
    }
  }

  lemma SummaryStop(buf: seq<byte>, p: nat, acc: Summary, utf8: Decoder)
    requires At(buf, p, EncodeFields(Stop))
    ensures SummaryAt(buf, p, acc, utf8) == OverMeta(Stop, acc, utf8)
  {
    hide SchemaAt, GroupsAt, ValueEnd, ToDouble;
    StopByte(buf, p);
    assert acc.columns + [] == acc.columns;
  }

  lemma {:induction false} SummaryRead(buf: seq<byte>, p: nat, l: Fields, acc: Summary, utf8: Decoder)
    requires WellFormedFields(l) && At(buf, p, EncodeFields(l))
    ensures SummaryAt(buf, p, acc, utf8) == OverMeta(l, acc, utf8)
    decreases l
  {
    hide Encode, SummaryAt, OverMeta, AbsorbMeta;
    match l
    case Stop => SummaryStop(buf, p, acc, utf8);
    case Field(id, v, rest) =>
      FieldHeader(buf, p, l);
      SummaryStep(buf, p, l, acc, utf8);
      SummaryRead(buf, p + 3 + |Encode(v)|, rest, AbsorbMeta(id, v, acc, utf8), utf8);
      AbsorbMetaIsOver(id, v, rest, acc, utf8);
  }

  // ----- what was read before the end of the buffer is kept

  /** Fields without the stop byte. */
  function EncodeOpen(l: Fields): seq<byte> {
    match l case Stop => [] case Field(id, v, rest) => FieldBytes(id, v) + EncodeOpen(rest)
  }

  /** A structure that is cut off between two fields is read up to there, and marked truncated. */
  lemma {:induction false} SummaryCut(buf: seq<byte>, p: nat, l: Fields, acc: Summary, utf8: Decoder)
    requires WellFormedFields(l) && At(buf, p, EncodeOpen(l)) && p + |EncodeOpen(l)| == |buf|
    ensures SummaryAt(buf, p, acc, utf8) == OverMeta(l, acc, utf8).(truncated := true)
    decreases l
  {
    hide SummaryAt, OverMeta, AbsorbMeta, At, FieldBytes, Encode;
    match l
    case Stop => CutAtOnce(buf, p, acc, utf8);
    case Field(id, v, rest) =>
      AtConcat(buf, p, FieldBytes(id, v), EncodeOpen(rest));
      OneField(buf, p, id, v);
      SummaryStep(buf, p, l, acc, utf8);
      SummaryCut(buf, p + 3 + |Encode(v)|, rest, AbsorbMeta(id, v, acc, utf8), utf8);
      AbsorbMetaIsOver(id, v, rest, acc, utf8);
  }

  lemma CutAtOnce(buf: seq<byte>, p: nat, acc: Summary, utf8: Decoder)
    requires p == |buf|
    ensures SummaryAt(buf, p, acc, utf8) == OverMeta(Stop, acc, utf8).(truncated := true)
  {
    hide SchemaAt, GroupsAt, ValueEnd, ToDouble;
    assert acc.columns + [] == acc.columns;
  }

  /** A schema list that ends before the announced number of elements keeps the columns of those it has. */
  lemma {:induction false} SchemaCut(buf: seq<byte>, n: nat, p: nat, l: Values, columns: seq<Column>, utf8: Decoder)
    requires WellFormedValues(T_STRUCT, l) && At(buf, p, EncodeValues(l)) && p + |EncodeValues(l)| == |buf|
    requires n > Count(l)
    ensures SchemaAt(buf, T_STRUCT, n, p, columns, utf8) == (columns + SchemaColumns(l, utf8), None)
    decreases l
  {
    hide Encode, ValueEnd, ColumnOf, ElementOf, SchemaAt;
    match l
    case Empty =>
      SchemaEnd(buf, n, p, columns, utf8);
      assert columns + [] == columns;
    case Elem(head, tail) =>
      var own := if head.Struct? then ColumnOf(ElementOf(head.fields, utf8)) else [];
      AtConcat(buf, p, Encode(head), EncodeValues(tail));
      SchemaStep(buf, T_STRUCT, n, p, head, columns, utf8);
      SchemaCut(buf, n - 1, p + |Encode(head)|, tail, columns + own, utf8);
      assert columns + own + SchemaColumns(tail, utf8) == columns + (own + SchemaColumns(tail, utf8));
  }

  /** The same for the sizes of row groups. */
  lemma {:induction false} GroupsCut(buf: seq<byte>, n: nat, p: nat, l: Values, acc: int)
    requires WellFormedValues(T_STRUCT, l) && At(buf, p, EncodeValues(l)) && p + |EncodeValues(l)| == |buf|
    requires n > Count(l)
    ensures GroupsAt(buf, T_STRUCT, n, p, acc) == (GroupsSize(l, acc), None)
    decreases l
  {
    hide Encode, ValueEnd, ToDouble, GroupSize, GroupsAt;
    match l
    case Empty => GroupsEnd(buf, n, p, acc);
    case Elem(head, tail) =>
      AtConcat(buf, p, Encode(head), EncodeValues(tail));
      GroupsStep(buf, T_STRUCT, n, p, head, acc);
      GroupsCut(buf, n - 1, p + |Encode(head)|, tail,
                if head.Struct? then ToDouble(acc + GroupSize(head.fields, 0)) else acc);
  }

  lemma SchemaEnd(buf: seq<byte>, n: nat, p: nat, columns: seq<Column>, utf8: Decoder)
    requires n > 0 && p == |buf|
    ensures SchemaAt(buf, T_STRUCT, n, p, columns, utf8) == (columns, None)
  {
    assert ElementAt(buf, p, NO_ELEMENT, utf8) == None;
  }

  lemma GroupsEnd(buf: seq<byte>, n: nat, p: nat, acc: int)
    requires n > 0 && p == |buf|
    ensures GroupsAt(buf, T_STRUCT, n, p, acc) == (acc, None)
  {
    assert GroupAt(buf, p, 0) == None;
  }

  // ----- whole files

  function LittleEndian(n: nat): (s: seq<byte>)
    requires n < 0x1_0000_0000
    ensures |s| == 4
  {
    [n % 256, n / 256 % 256, n / 0x1_0000 % 256, n / 0x100_0000]
  }

  /** Magic, row groups, footer, footer length, and four bytes that are normally the magic again. */
  function File(body: seq<byte>, footer: seq<byte>, last: seq<byte>): seq<byte>
    requires |footer| < 0x1_0000_0000
  {
    MAGIC + body + footer + LittleEndian(|footer|) + last
  }

  lemma LengthRead(b: seq<byte>, p: nat, n: nat)
    requires n < 0x1_0000_0000 && At(b, p, LittleEndian(n))
    ensures LittleEndianAt(b, p) == n
  {
    var s := b[p..p + 4];
    assert b[p] == s[0] && b[p + 1] == s[1] && b[p + 2] == s[2] && b[p + 3] == s[3];
    assert n / 256 == n / 256 % 256 + 256 * (n / 0x1_0000);
    assert n / 0x1_0000 == n / 0x1_0000 % 256 + 256 * (n / 0x100_0000);
  }

  /**
   Every file whose footer encodes a metadata structure, with any well-formed fields of any
   depth in any order, decodes to the meaning of that structure.
   */
  lemma FooterRoundTrip(body: seq<byte>, l: Fields, last: seq<byte>, utf8: Decoder)
    requires WellFormedFields(l) && |EncodeFields(l)| < 0x1_0000_0000 && |last| == 4
    ensures Parsed(File(body, EncodeFields(l), last), utf8) == Some(Meaning(l, utf8))
  {
    hide *;
    FooterNotEmpty(l);
    WholeAt(EncodeFields(l));
    ParsedFile(body, EncodeFields(l), last, utf8);
    SummaryRead(EncodeFields(l), 0, l, NO_SUMMARY, utf8);
    OverNothing(l, utf8);
  }

  /** A file is decoded from its footer alone. */
  lemma ParsedFile(body: seq<byte>, footer: seq<byte>, last: seq<byte>, utf8: Decoder)
    requires 0 < |footer| < 0x1_0000_0000 && |last| == 4
    ensures Parsed(File(body, footer, last), utf8) == Some(SummaryAt(footer, 0, NO_SUMMARY, utf8))
  {
    hide SummaryAt, File, LittleEndianAt, LittleEndian;
    var file := File(body, footer, last);
    FilePieces(body, footer, last);
    LengthRead(file, |file| - 8, |footer|);
  }

  /** A footer that ends between two fields gives what these fields mean, marked truncated. */
  lemma {:induction false} CutFooter(body: seq<byte>, l: Fields, last: seq<byte>, utf8: Decoder)
    requires WellFormedFields(l) && l.Field? && |EncodeOpen(l)| < 0x1_0000_0000 && |last| == 4
    ensures Parsed(File(body, EncodeOpen(l), last), utf8) == Some(Meaning(l, utf8).(truncated := true))
  {
    hide *;
    OpenNotEmpty(l);
    WholeAt(EncodeOpen(l));
    ParsedFile(body, EncodeOpen(l), last, utf8);
    SummaryCut(EncodeOpen(l), 0, l, NO_SUMMARY, utf8);
    OverNothing(l, utf8);
  }

  lemma WholeAt(s: seq<byte>)
    ensures At(s, 0, s)
  {
    assert s[0..|s|] == s;
  }

  lemma OpenNotEmpty(l: Fields)
    requires l.Field?
    ensures |EncodeOpen(l)| > 0
  {
  }

  lemma OverNothing(l: Fields, utf8: Decoder)
    ensures OverMeta(l, NO_SUMMARY, utf8) == Meaning(l, utf8)
  {
    hide ToDouble, Columns, TotalSize;
    assert [] + Columns(l, utf8) == Columns(l, utf8);
  }

  lemma FooterNotEmpty(l: Fields)
    ensures |EncodeFields(l)| > 0
  {
  }

  lemma FilePieces(body: seq<byte>, footer: seq<byte>, last: seq<byte>)
    requires |footer| < 0x1_0000_0000 && |last| == 4
    ensures var file := File(body, footer, last);
            var tail := |file| - 8;
            && tail == 4 + |body| + |footer|
            && file[..4] == MAGIC && file[tail - |footer|..tail] == footer
            && At(file, tail, LittleEndian(|footer|))
  {
  }

  // ----- a metadata record among unknown fields

  function Append(a: Fields, b: Fields): Fields {
    match a case Stop => b case Field(id, v, rest) => Field(id, v, Append(rest, b))
  }

  /** None of the fields that the decoder takes. */
  predicate Unknown(l: Fields) {
    match l
    case Stop => true
    case Field(id, v, rest) =>
      && !(id == 1 && v.I32?) && !(id == 2 && v.List?) && !(id == 3 && v.I64?) && !(id == 4 && v.List?)
      && Unknown(rest)
  }

  lemma {:induction false} UnknownPrefix(a: Fields, b: Fields, acc: int, utf8: Decoder)
    requires Unknown(a)
    ensures Lookup(Append(a, b), 1, T_I32) == Lookup(b, 1, T_I32)
    ensures Lookup(Append(a, b), 3, T_I64) == Lookup(b, 3, T_I64)
    ensures Lookup(Append(a, b), 4, T_LIST) == Lookup(b, 4, T_LIST)
    ensures TotalSize(Append(a, b), acc) == TotalSize(b, acc)
    ensures Columns(Append(a, b), utf8) == Columns(b, utf8)
  {
    hide ToDouble, SchemaColumns, GroupsSize;
    if a.Field? {
      UnknownPrefix(a.rest, b, acc, utf8);
    }
  }

  /** The record's four fields, with unknown fields before, between and after them. */
  function Record(version: int, rows: int, schema: Values, groups: Values,
                  u0: Fields, u1: Fields, u2: Fields, u3: Fields, u4: Fields): Fields {
    Append(u0, Field(1, I32(version),
      Append(u1, Field(2, List(T_STRUCT, schema),
        Append(u2, Field(3, I64(rows),
          Append(u3, Field(4, List(T_STRUCT, groups), u4))))))))
  }

  lemma UnknownAlone(u: Fields, acc: int, utf8: Decoder)
    requires Unknown(u)
    ensures Lookup(u, 1, T_I32).None? && Lookup(u, 3, T_I64).None? && Lookup(u, 4, T_LIST).None?
    ensures TotalSize(u, acc) == acc && Columns(u, utf8) == []
  {
    hide ToDouble, GroupsSize;
    UnknownPrefix(u, Stop, acc, utf8);
    AppendStop(u);
  }

  lemma {:induction false} AppendStop(u: Fields)
    ensures Append(u, Stop) == u
  {
    if u.Field? {
      AppendStop(u.rest);
    }
  }

  lemma LastPart(groups: Values, u3: Fields, u4: Fields, utf8: Decoder)
    requires Unknown(u3) && Unknown(u4)
    ensures var l := Append(u3, Field(4, List(T_STRUCT, groups), u4));
            && Lookup(l, 1, T_I32).None? && Lookup(l, 3, T_I64).None?
            && Lookup(l, 4, T_LIST) == Some(List(T_STRUCT, groups))
            && TotalSize(l, 0) == GroupsSize(groups, 0) && Columns(l, utf8) == []
  {
    hide ToDouble, SchemaColumns, GroupsSize;
    UnknownPrefix(u3, Field(4, List(T_STRUCT, groups), u4), 0, utf8);
    UnknownAlone(u4, 0, utf8);
    UnknownAlone(u4, GroupsSize(groups, 0), utf8);
  }

  lemma MiddlePart(rows: int, schema: Values, l3: Fields, u1: Fields, u2: Fields, utf8: Decoder)
    requires Unknown(u1) && Unknown(u2)
    requires Lookup(l3, 1, T_I32).None? && Lookup(l3, 3, T_I64).None? && Columns(l3, utf8) == []
    ensures var l := Append(u1, Field(2, List(T_STRUCT, schema), Append(u2, Field(3, I64(rows), l3))));
            && Lookup(l, 1, T_I32).None? && Lookup(l, 3, T_I64) == Some(I64(rows))
            && Lookup(l, 4, T_LIST) == Lookup(l3, 4, T_LIST)
            && TotalSize(l, 0) == TotalSize(l3, 0) && Columns(l, utf8) == SchemaColumns(schema, utf8)
  {
    hide ToDouble, SchemaColumns, GroupsSize, Append;
    var l2 := Append(u2, Field(3, I64(rows), l3));
    UnknownPrefix(u2, Field(3, I64(rows), l3), 0, utf8);
    UnknownPrefix(u1, Field(2, List(T_STRUCT, schema), l2), 0, utf8);
    assert Columns(Field(3, I64(rows), l3), utf8) == [] + [];
    assert SchemaColumns(schema, utf8) + [] == SchemaColumns(schema, utf8);
  }

  /** What the decoder reports of a record, whatever unknown fields surround it. */
  lemma RecordMeaning(version: int, rows: int, schema: Values, groups: Values,
                      u0: Fields, u1: Fields, u2: Fields, u3: Fields, u4: Fields, utf8: Decoder)
    requires Unknown(u0) && Unknown(u1) && Unknown(u2) && Unknown(u3) && Unknown(u4)
    ensures Meaning(Record(version, rows, schema, groups, u0, u1, u2, u3, u4), utf8) ==
            Summary(version, ToDouble(rows), Count(groups), GroupsSize(groups, 0), SchemaColumns(schema, utf8), false)
  {
    hide ToDouble, SchemaColumns, GroupsSize, Append, Unknown;
    var l3 := Append(u3, Field(4, List(T_STRUCT, groups), u4));
    LastPart(groups, u3, u4, utf8);
    MiddlePart(rows, schema, l3, u1, u2, utf8);
    var l1 := Append(u1, Field(2, List(T_STRUCT, schema), Append(u2, Field(3, I64(rows), l3))));
    UnknownPrefix(u0, Field(1, I32(version), l1), 0, utf8);
    assert [] + Columns(l1, utf8) == Columns(l1, utf8);
  }

  // ----- sizes are exact as long as they stay within the integers that doubles hold

  function ExactGroup(l: Fields): int {
    match l case Stop => 0 case Field(id, v, rest) => (if id == 3 && v.I64? then v.n else 0) + ExactGroup(rest)
  }

  function MagnitudeGroup(l: Fields): nat {
    match l case Stop => 0 case Field(id, v, rest) => (if id == 3 && v.I64? then Abs(v.n) else 0) + MagnitudeGroup(rest)
  }

  function ExactGroups(l: Values): int {
    match l case Empty => 0 case Elem(v, tail) => (if v.Struct? then ExactGroup(v.fields) else 0) + ExactGroups(tail)
  }

  function MagnitudeGroups(l: Values): nat {
    match l
    case Empty => 0
    case Elem(v, tail) => (if v.Struct? then MagnitudeGroup(v.fields) else 0) + MagnitudeGroups(tail)
  }

  lemma {:induction false} GroupSizeExact(l: Fields, acc: int)
    requires Abs(acc) + MagnitudeGroup(l) <= TWO53
    ensures GroupSize(l, acc) == acc + ExactGroup(l)
    ensures Abs(ExactGroup(l)) <= MagnitudeGroup(l)
  {
    hide ToDouble;
    match l
    case Stop =>
    case Field(id, v, rest) =>
      if id == 3 && v.I64? {
        ToDoubleExact(v.n);
        ToDoubleExact(acc + v.n);
        GroupSizeExact(rest, acc + v.n);
      } else {
        GroupSizeExact(rest, acc);
      }
  }

  /** The reported size is the sum of the row groups' sizes when these stay within 2^53. */
  lemma {:induction false} GroupsSizeExact(l: Values, acc: int)
    requires Abs(acc) + MagnitudeGroups(l) <= TWO53
    ensures GroupsSize(l, acc) == acc + ExactGroups(l)
  {
    hide ToDouble;
    match l
    case Empty =>
    case Elem(v, tail) =>
      if v.Struct? {
        GroupSizeExact(v.fields, 0);
        ToDoubleExact(acc + ExactGroup(v.fields));
        GroupsSizeExact(tail, acc + ExactGroup(v.fields));
      } else {
        GroupsSizeExact(tail, acc);
      }
  }

  /**
   The record decoded: version, row count, columns, number of row groups and the sum of their
   sizes, the numbers exact while they stay within 2^53.
   */
  lemma RecordDecoded(body: seq<byte>, last: seq<byte>, version: int, rows: int, schema: Values, groups: Values,
                      u0: Fields, u1: Fields, u2: Fields, u3: Fields, u4: Fields, utf8: Decoder)
    requires Unknown(u0) && Unknown(u1) && Unknown(u2) && Unknown(u3) && Unknown(u4)
    requires WellFormedFields(Record(version, rows, schema, groups, u0, u1, u2, u3, u4))
    requires |EncodeFields(Record(version, rows, schema, groups, u0, u1, u2, u3, u4))| < 0x1_0000_0000
    requires |last| == 4 && Abs(rows) <= TWO53 && MagnitudeGroups(groups) <= TWO53
    ensures Parsed(File(body, EncodeFields(Record(version, rows, schema, groups, u0, u1, u2, u3, u4)), last), utf8) ==
            Some(Summary(version, rows, Count(groups), ExactGroups(groups), SchemaColumns(schema, utf8), false))
  {
    hide *;
    FooterRoundTrip(body, Record(version, rows, schema, groups, u0, u1, u2, u3, u4), last, utf8);
    RecordMeaning(version, rows, schema, groups, u0, u1, u2, u3, u4, utf8);
    ToDoubleExact(rows);
    AbsZero();
    GroupsSizeExact(groups, 0);
  }

  lemma AbsZero()
    ensures Abs(0) == 0
  {
  }
}
