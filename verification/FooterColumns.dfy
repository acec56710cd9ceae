/**
 Which schema elements the footer decoder reports as columns, and what it says of them, read off
 the fields of the elements; then the round trip of a metadata record with it.
 */
module FooterColumns {
  import opened Prelude
  import opened Doubles
  import opened Thrift
  import opened Footer

  // ----- fields and elements by position

  function FieldSeq(l: Fields): seq<(int, Value)> {
    match l case Stop => [] case Field(id, v, rest) => [(id, v)] + FieldSeq(rest)
  }

  function ElemSeq(l: Values): seq<Value> {
    match l case Empty => [] case Elem(head, tail) => [head] + ElemSeq(tail)
  }

  predicate Is32(f: (int, Value), id: int) { f.0 == id && f.1.I32? }

  predicate IsBinary(f: (int, Value), id: int) { f.0 == id && f.1.Binary? }

  /** The value of the last 32-bit field with an id. */
  ghost predicate Last32(fs: seq<(int, Value)>, id: int, n: int) {
    exists k :: 0 <= k < |fs| && fs[k] == (id, I32(n)) && forall j :: k < j < |fs| ==> !Is32(fs[j], id)
  }

  predicate No32(fs: seq<(int, Value)>, id: int) { forall k :: 0 <= k < |fs| ==> !Is32(fs[k], id) }

  predicate NoBinary(fs: seq<(int, Value)>, id: int) { forall k :: 0 <= k < |fs| ==> !IsBinary(fs[k], id) }

  ghost predicate LastBinary(fs: seq<(int, Value)>, id: int, content: seq<byte>) {
    exists k :: 0 <= k < |fs| && fs[k] == (id, Binary(content)) && forall j :: k < j < |fs| ==> !IsBinary(fs[j], id)
  }

  // ----- what a column is

  /** No children are announced, and the last name decodes to this non-empty text. */
  ghost predicate NamedLeaf(fs: seq<(int, Value)>, name: string, utf8: Decoder) {
    && (No32(fs, 5) || Last32(fs, 5, 0))
    && name != "" && exists content :: LastBinary(fs, 4, content) && utf8(content) == name
  }

  const TYPES := ["BOOLEAN", "INT32", "INT64", "INT96", "FLOAT", "DOUBLE", "BYTE_ARRAY", "FIXED_LEN_BYTE_ARRAY"]

  const REPETITIONS := ["REQUIRED", "OPTIONAL", "REPEATED"]

  /** The text that the last 32-bit field with an id selects from a table. */
  ghost predicate Selected(fs: seq<(int, Value)>, id: int, table: seq<string>, other: string, text: string) {
    if No32(fs, id) then text == other
    else exists n :: Last32(fs, id, n) && text == if 0 <= n < |table| then table[n] else other
  }

  /** The element is a column, and this is what is said of it. */
  ghost predicate Describes(v: Value, c: Column, utf8: Decoder) {
    && v.Struct? && NamedLeaf(FieldSeq(v.fields), c.name, utf8)
    && Selected(FieldSeq(v.fields), 1, TYPES, "UNKNOWN", c.kind)
    && Selected(FieldSeq(v.fields), 3, REPETITIONS, "OPTIONAL", c.repetition)
  }

  ghost predicate IsColumn(v: Value, utf8: Decoder) {
    v.Struct? && exists name :: NamedLeaf(FieldSeq(v.fields), name, utf8)
  }

  /** The columns are those of the elements at these positions, which are all that are columns, in order. */
  ghost predicate ColumnsAt(elems: seq<Value>, columns: seq<Column>, at: seq<nat>, utf8: Decoder) {
    && |at| == |columns|
    && (forall k :: 0 <= k < |at| ==> at[k] < |elems| && Describes(elems[at[k]], columns[k], utf8))
    && (forall k, l :: 0 <= k < l < |at| ==> at[k] < at[l])
    && (forall i :: 0 <= i < |elems| ==> (IsColumn(elems[i], utf8) <==> i in at))
  }

  // ----- the last field, found

  lemma No32Cons(f: (int, Value), t: seq<(int, Value)>, id: int)
    ensures No32([f] + t, id) <==> !Is32(f, id) && No32(t, id)
  {
    var fs := [f] + t;
    assert fs[0] == f && forall j :: 0 <= j < |t| ==> fs[j + 1] == t[j];
  }

  lemma {:induction false} Lookup32(l: Fields, id: int)
    ensures Int32Of(l, id).None? <==> No32(FieldSeq(l), id)
    ensures Int32Of(l, id).Some? ==> Last32(FieldSeq(l), id, Int32Of(l, id).value)
  {
    if l.Field? {
      hide No32, Last32;
      Lookup32(l.rest, id);
      var f, t := (l.id, l.value), FieldSeq(l.rest);
      No32Cons(f, t, id);
      if !No32(t, id) {
        Shift32(l.id, l.value, t, id, Int32Of(l.rest, id).value);
      } else if Is32(f, id) {
        Head32(l.value.n, t, id);
      }
    }
  }

  lemma Head32(n: int, t: seq<(int, Value)>, id: int)
    requires No32(t, id)
    ensures Last32([(id, I32(n))] + t, id, n)
  {
    var fs := [(id, I32(n))] + t;
    assert fs[0] == (id, I32(n));
    assert forall j :: 0 < j < |fs| ==> fs[j] == t[j - 1];
  }

  lemma Shift32(i: int, v: Value, t: seq<(int, Value)>, id: int, n: int)
    requires Last32(t, id, n)
    ensures Last32([(i, v)] + t, id, n)
  {
    var k :| 0 <= k < |t| && t[k] == (id, I32(n)) && forall j :: k < j < |t| ==> !Is32(t[j], id);
    var fs := [(i, v)] + t;
    assert fs[k + 1] == (id, I32(n));
    assert forall j :: k + 1 < j < |fs| ==> fs[j] == t[j - 1];
  }

  lemma NoBinaryCons(f: (int, Value), t: seq<(int, Value)>, id: int)
    ensures NoBinary([f] + t, id) <==> !IsBinary(f, id) && NoBinary(t, id)
  {
    var fs := [f] + t;
    assert fs[0] == f && forall j :: 0 <= j < |t| ==> fs[j + 1] == t[j];
  }

  lemma {:induction false} LookupBinary(l: Fields, id: int)
    ensures Lookup(l, id, T_BINARY).None? <==> NoBinary(FieldSeq(l), id)
    ensures Lookup(l, id, T_BINARY).Some? ==> LastBinary(FieldSeq(l), id, Lookup(l, id, T_BINARY).value.content)
  {
    if l.Field? {
      hide NoBinary, LastBinary;
      LookupBinary(l.rest, id);
      var f, t := (l.id, l.value), FieldSeq(l.rest);
      NoBinaryCons(f, t, id);
      var later := Lookup(l.rest, id, T_BINARY);
      if later.Some? {
        ShiftBinary(l.id, l.value, t, id, later.value.content);
      } else if IsBinary(f, id) {
        HeadBinary(l.value.content, t, id);
      }
    }
  }

  lemma HeadBinary(content: seq<byte>, t: seq<(int, Value)>, id: int)
    requires NoBinary(t, id)
    ensures LastBinary([(id, Binary(content))] + t, id, content)
  {
    var fs := [(id, Binary(content))] + t;
    assert fs[0] == (id, Binary(content));
    assert forall j :: 0 < j < |fs| ==> fs[j] == t[j - 1];
  }

  lemma ShiftBinary(i: int, v: Value, t: seq<(int, Value)>, id: int, content: seq<byte>)
    requires LastBinary(t, id, content)
    ensures LastBinary([(i, v)] + t, id, content)
  {
    var k :| 0 <= k < |t| && t[k] == (id, Binary(content)) && forall j :: k < j < |t| ==> !IsBinary(t[j], id);
    var fs := [(i, v)] + t;
    assert fs[k + 1] == (id, Binary(content));
    assert forall j :: k + 1 < j < |fs| ==> fs[j] == t[j - 1];
  }

  lemma Last32Unique(fs: seq<(int, Value)>, id: int, n: int, m: int)
    requires Last32(fs, id, n) && Last32(fs, id, m)
    ensures n == m && !No32(fs, id)
  {
    var k :| 0 <= k < |fs| && fs[k] == (id, I32(n)) && forall j :: k < j < |fs| ==> !Is32(fs[j], id);
    var k' :| 0 <= k' < |fs| && fs[k'] == (id, I32(m)) && forall j :: k' < j < |fs| ==> !Is32(fs[j], id);
    assert Is32(fs[k], id) && Is32(fs[k'], id);
  }

  lemma LastBinaryUnique(fs: seq<(int, Value)>, id: int, x: seq<byte>, y: seq<byte>)
    requires LastBinary(fs, id, x) && LastBinary(fs, id, y)
    ensures x == y && !NoBinary(fs, id)
  {
    var k :| 0 <= k < |fs| && fs[k] == (id, Binary(x)) && forall j :: k < j < |fs| ==> !IsBinary(fs[j], id);
    var k' :| 0 <= k' < |fs| && fs[k'] == (id, Binary(y)) && forall j :: k' < j < |fs| ==> !IsBinary(fs[j], id);
    assert IsBinary(fs[k], id) && IsBinary(fs[k'], id);
  }

  // ----- one element

  lemma KindFromTable(n: int)
    ensures KindName(n) == if 0 <= n < |TYPES| then TYPES[n] else "UNKNOWN"
  {
  }

  lemma RepetitionFromTable(n: int)
    ensures RepetitionName(n) == if 0 <= n < |REPETITIONS| then REPETITIONS[n] else "OPTIONAL"
  {
  }

  lemma KindSelected(l: Fields)
    ensures Selected(FieldSeq(l), 1, TYPES, "UNKNOWN",
                     if Int32Of(l, 1).Some? then KindName(Int32Of(l, 1).value) else "UNKNOWN")
  {
    hide FieldSeq, Last32, No32, Int32Of;
    Lookup32(l, 1);
    if Int32Of(l, 1).Some? {
      KindFromTable(Int32Of(l, 1).value);
    }
  }

  lemma RepetitionSelected(l: Fields)
    ensures Selected(FieldSeq(l), 3, REPETITIONS, "OPTIONAL",
                     if Int32Of(l, 3).Some? then RepetitionName(Int32Of(l, 3).value) else "OPTIONAL")
  {
    hide FieldSeq, Last32, No32, Int32Of;
    Lookup32(l, 3);
    if Int32Of(l, 3).Some? {
      RepetitionFromTable(Int32Of(l, 3).value);
    }
  }

  lemma LeafIff(l: Fields)
    ensures Int32Of(l, 5).None? || Int32Of(l, 5).value == 0 <==> No32(FieldSeq(l), 5) || Last32(FieldSeq(l), 5, 0)
  {
    hide FieldSeq, Last32, No32, Int32Of;
    Lookup32(l, 5);
    if Int32Of(l, 5).Some? && Last32(FieldSeq(l), 5, 0) {
      Last32Unique(FieldSeq(l), 5, Int32Of(l, 5).value, 0);
    }
  }

  /** The name that a decoder gives to an element, if any. */
  function NameOf(l: Fields, utf8: Decoder): Option<string> {
    match Lookup(l, 4, T_BINARY) case Some(v) => Some(utf8(v.content)) case None => None
  }

  lemma NameIff(l: Fields, name: string, utf8: Decoder)
    ensures NameOf(l, utf8) == Some(name) <==>
            exists content :: LastBinary(FieldSeq(l), 4, content) && utf8(content) == name
  {
    hide FieldSeq, LastBinary, NoBinary, Lookup;
    LookupBinary(l, 4);
    var v := Lookup(l, 4, T_BINARY);
    if content :| LastBinary(FieldSeq(l), 4, content) && utf8(content) == name {
      LastBinaryUnique(FieldSeq(l), 4, content, content);
      if v.Some? {
        LastBinaryUnique(FieldSeq(l), 4, content, v.value.content);
      }
    }
  }

  lemma ElementDescribed(l: Fields, utf8: Decoder)
    ensures var cols := ColumnOf(ElementOf(l, utf8));
            && |cols| <= 1 && (|cols| == 1 <==> IsColumn(Struct(l), utf8))
            && (|cols| == 1 ==> Describes(Struct(l), cols[0], utf8))
  {
    hide FieldSeq, LastBinary, Last32, No32, Lookup, Int32Of, Selected, KindName, RepetitionName;
    LeafIff(l);
    KindSelected(l);
    RepetitionSelected(l);
    var e := ElementOf(l, utf8);
    assert e.name == NameOf(l, utf8);
    forall name: string {
      NameIff(l, name, utf8);
    }
    var cols := ColumnOf(e);
    if |cols| == 1 {
      assert NamedLeaf(FieldSeq(l), e.name.value, utf8);
    }
    if IsColumn(Struct(l), utf8) {
      var name :| NamedLeaf(FieldSeq(l), name, utf8);
      assert e.name == Some(name);
    }
  }

  // ----- all elements

  /** The columns of one value of the schema list. */
  function OwnColumns(v: Value, utf8: Decoder): seq<Column> {
    if v.Struct? then ColumnOf(ElementOf(v.fields, utf8)) else []
  }

  lemma OneElement(v: Value, utf8: Decoder) returns (at: seq<nat>)
    ensures ColumnsAt([v], OwnColumns(v, utf8), at, utf8)
  {
    hide Describes, IsColumn, ColumnOf, ElementOf;
    if v.Struct? {
      ElementDescribed(v.fields, utf8);
      at := if OwnColumns(v, utf8) == [] then [] else [0];
    } else {
      NotAColumn(v, utf8);
      at := [];
    }
  }

  lemma NotAColumn(v: Value, utf8: Decoder)
    requires !v.Struct?
    ensures !IsColumn(v, utf8)
  {
  }

  /** Columns of two lists of elements, one after the other. */
  lemma ConcatColumns(a: seq<Value>, x: seq<Column>, at: seq<nat>, b: seq<Value>, y: seq<Column>, bt: seq<nat>,
                      utf8: Decoder) returns (both: seq<nat>)
    requires ColumnsAt(a, x, at, utf8) && ColumnsAt(b, y, bt, utf8)
    ensures ColumnsAt(a + b, x + y, both, utf8)
  {
    hide Describes, IsColumn;
    both := at + Raised(bt, |a|);
    forall k | 0 <= k < |both|
      ensures both[k] < |a + b| && Describes((a + b)[both[k]], (x + y)[k], utf8)
    {
      assert k < |at| ==> both[k] == at[k] && (a + b)[at[k]] == a[at[k]];
      assert k >= |at| ==> (a + b)[both[k]] == b[bt[k - |at|]];
    }
    forall i: nat | i < |a + b|
      ensures IsColumn((a + b)[i], utf8) <==> i in both
    {
      InConcat(at, bt, |a|, i);
      assert i >= |a| ==> (a + b)[i] == b[i - |a|];
    }
  }

  function Raised(at: seq<nat>, n: nat): (r: seq<nat>)
    ensures |r| == |at| && forall k :: 0 <= k < |at| ==> r[k] == n + at[k]
  {
    seq(|at|, k requires 0 <= k < |at| => n + at[k])
  }

  lemma InConcat(at: seq<nat>, bt: seq<nat>, n: nat, i: nat)
    requires forall k :: 0 <= k < |at| ==> at[k] < n
    ensures i in at + Raised(bt, n) <==> if i < n then i in at else i - n in bt
  {
    if i >= n && i - n in bt {
      var k :| 0 <= k < |bt| && bt[k] == i - n;
      assert Raised(bt, n)[k] == i;
    }
    if i in Raised(bt, n) {
      var k :| 0 <= k < |bt| && Raised(bt, n)[k] == i;
      assert bt[k] == i - n;
    }
  }

  /** The columns of a schema list are those of its named leaves, in order. */
  lemma {:induction false} SchemaColumnsAre(l: Values, utf8: Decoder) returns (at: seq<nat>)
    ensures ColumnsAt(ElemSeq(l), SchemaColumns(l, utf8), at, utf8)
  {
    hide ColumnsAt, ColumnOf, ElementOf;
    match l
    case Empty =>
      at := [];
      NoColumns(utf8);
    case Elem(head, tail) =>
      var own := OneElement(head, utf8);
      var rest := SchemaColumnsAre(tail, utf8);
      at := ConcatColumns([head], OwnColumns(head, utf8), own, ElemSeq(tail), SchemaColumns(tail, utf8), rest, utf8);
  }

  lemma NoColumns(utf8: Decoder)
    ensures ColumnsAt([], [], [], utf8)
  {
  }

  /** The elements of all schema lists of a metadata structure; a well-formed one has a single list. */
  function SchemaElems(l: Fields): seq<Value> {
    match l
    case Stop => []
    case Field(id, v, rest) => (if id == 2 && v.List? then ElemSeq(v.elems) else []) + SchemaElems(rest)
  }

  /** What the decoder reports of any structure: the named leaves among the elements of its schema lists. */
  lemma {:induction false} MeaningColumns(l: Fields, utf8: Decoder) returns (at: seq<nat>)
    ensures ColumnsAt(SchemaElems(l), Meaning(l, utf8).columns, at, utf8)
  {
    at := AllColumns(l, utf8);
  }

  lemma {:induction false} AllColumns(l: Fields, utf8: Decoder) returns (at: seq<nat>)
    ensures ColumnsAt(SchemaElems(l), Columns(l, utf8), at, utf8)
  {
    hide ColumnsAt, SchemaColumns;
    match l
    case Stop =>
      at := [];
      NoColumns(utf8);
    case Field(id, v, rest) =>
      at := AllColumns(rest, utf8);
      if id == 2 && v.List? {
        var own := SchemaColumnsAre(v.elems, utf8);
        at := ConcatColumns(ElemSeq(v.elems), SchemaColumns(v.elems, utf8), own,
                            SchemaElems(rest), Columns(rest, utf8), at, utf8);
      } else {
        assert [] + SchemaElems(rest) == SchemaElems(rest) && [] + Columns(rest, utf8) == Columns(rest, utf8);
      }
  }

  // ----- the round trip

  /** The sum over the row groups' 64-bit fields 3. */
  function SizeSum(groups: seq<Value>): int {
    if groups == [] then 0
    else (if groups[0].Struct? then FieldSum(FieldSeq(groups[0].fields)) else 0) + SizeSum(groups[1..])
  }

  function FieldSum(fs: seq<(int, Value)>): int {
    if fs == [] then 0 else (if fs[0].0 == 3 && fs[0].1.I64? then fs[0].1.n else 0) + FieldSum(fs[1..])
  }

  lemma {:induction false} SumOfGroup(l: Fields)
    ensures ExactGroup(l) == FieldSum(FieldSeq(l))
  {
    if l.Field? {
      SumOfGroup(l.rest);
      assert FieldSeq(l)[1..] == FieldSeq(l.rest);
    }
  }

  lemma {:induction false} SumOfGroups(l: Values)
    ensures ExactGroups(l) == SizeSum(ElemSeq(l)) && Count(l) == |ElemSeq(l)|
  {
    hide ExactGroup, FieldSum, FieldSeq;
    if l.Elem? {
      SumOfGroups(l.tail);
      if l.head.Struct? {
        SumOfGroup(l.head.fields);
      }
      assert ElemSeq(l)[1..] == ElemSeq(l.tail);
    }
  }

  /**
   The round trip for a record among unknown fields: version and row count come back, the columns
   are those of the named leaves in order with their types and repetitions, and the number of row
   groups and the sum of their sizes are right, all exact while the integers stay within 2^53.
   */
  lemma RecordRoundTrip(body: seq<byte>, last: seq<byte>, version: int, rows: int, schema: Values, groups: Values,
                        u0: Fields, u1: Fields, u2: Fields, u3: Fields, u4: Fields, utf8: Decoder)
    returns (s: Summary, at: seq<nat>)
    requires Unknown(u0) && Unknown(u1) && Unknown(u2) && Unknown(u3) && Unknown(u4)
    requires WellFormedFields(Record(version, rows, schema, groups, u0, u1, u2, u3, u4))
    requires |EncodeFields(Record(version, rows, schema, groups, u0, u1, u2, u3, u4))| < 0x1_0000_0000
    requires |last| == 4 && Abs(rows) <= TWO53 && MagnitudeGroups(groups) <= TWO53
    ensures Some(s) ==
            Parsed(File(body, EncodeFields(Record(version, rows, schema, groups, u0, u1, u2, u3, u4)), last), utf8)
    ensures s.version == version && s.numRows == rows && !s.truncated
    ensures s.rowGroupCount == |ElemSeq(groups)| && s.totalByteSize == SizeSum(ElemSeq(groups))
    ensures ColumnsAt(ElemSeq(schema), s.columns, at, utf8)
  {
    hide *;
    RecordDecoded(body, last, version, rows, schema, groups, u0, u1, u2, u3, u4, utf8);
    s := Summary(version, rows, Count(groups), ExactGroups(groups), SchemaColumns(schema, utf8), false);
    at := SchemaColumnsAre(schema, utf8);
    SumOfGroups(groups);
  }

  // ----- what is no Parquet file

  /** Exactly files shorter than 12 bytes or without `PAR1` in front are not taken for Parquet. */
  lemma NotParquetIff(bytes: seq<byte>, utf8: Decoder)
    ensures Parsed(bytes, utf8).None? <==>
            |bytes| < 12 || bytes[0] != 'P' as int || bytes[1] != 'A' as int || bytes[2] != 'R' as int
            || bytes[3] != '1' as int
  {
    hide SummaryAt, LittleEndianAt;
    if |bytes| >= 12 {
      var m := bytes[..4];
      assert m == [bytes[0], bytes[1], bytes[2], bytes[3]];
    }
  }

  /** The type codes of the wire format, by number. */
  lemma WireCodes(v: Value)
    ensures Code(v) == match v
                       case Bool(_) => 2 case Byte(_) => 3 case Double(_) => 4 case I16(_) => 5 case I32(_) => 6
                       case I64(_) => 8 case Binary(_) => 11 case Struct(_) => 12 case Map(_, _, _) => 13
                       case Set(_, _) => 14 case List(_, _) => 15
    ensures EncodeFields(Stop) == [0]
  {
  }
}
