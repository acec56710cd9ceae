/** The preview's reader: a cursor over the footer bytes, and the file decoder that drives it. */
module FooterReader {
  import opened Prelude
  import opened Thrift
  import opened Footer
  import opened Doubles

  /** Reading past the end is an error: `None`, or `false` for a method that returns nothing. */
  class ThriftReader {
    const buf: seq<byte>
    const utf8: Decoder
    var pos: nat

    constructor (buf: seq<byte>, utf8: Decoder)
      ensures this.buf == buf && this.utf8 == utf8 && pos == 0
    {
      this.buf := buf;
      this.utf8 := utf8;
      pos := 0;
    }

    method ReadByte() returns (r: Option<byte>)
      modifies this
      ensures r == if old(pos) < |buf| then Some(buf[old(pos)]) else None
      ensures pos == if r.Some? then old(pos) + 1 else old(pos)
    {
      if pos >= |buf| {
        return None;
      }
      r := Some(buf[pos]);
      pos := pos + 1;
    }

    method ReadI16() returns (v: int)
      modifies this
      ensures v == I16At(buf, old(pos)) && pos == old(pos) + 2
    {
      v := I16At(buf, pos);
      pos := pos + 2;
    }

    method ReadI32() returns (v: int)
      modifies this
      ensures v == I32At(buf, old(pos)) && pos == old(pos) + 4
    {
      v := I32At(buf, pos);
      pos := pos + 4;
    }

    method ReadI64() returns (v: int)
      modifies this
      ensures v == ToDouble(I64At(buf, old(pos))) && pos == old(pos) + 8
    {
      hide ToDouble, I32At, U32At;
      UnsignedHalf(buf, pos + 4);
      var hi := ReadI32();
      var lo := ReadI32();
      v := ToDouble(hi * 0x1_0000_0000 + lo % 0x1_0000_0000);
    }

    method ReadBinary() returns (s: string)
      modifies this
      ensures (s, pos) == BinaryAt(buf, old(pos), utf8)
    {
      var len := ReadI32();
      if len < 0 || len > |buf| - pos {
        return "";
      }
      s := utf8(buf[pos..pos + len]);
      pos := pos + len;
    }

    method SkipValue(t: byte) returns (ok: bool)
      modifies this
      ensures pos >= old(pos)
      ensures ValueEnd(buf, t, old(pos)) == if ok then Some(pos) else None
      decreases Left(buf, pos), 1, 0
    {
      ok := true;
      if t == T_BOOL || t == T_BYTE {
        pos := pos + 1;
      } else if t == T_I16 {
        pos := pos + 2;
      } else if t == T_I32 {
        pos := pos + 4;
      } else if t == T_I64 || t == T_DOUBLE {
        pos := pos + 8;
      } else if t == T_BINARY {
        var n := ReadI32();
        pos := pos + Max(0, n);
      } else if t == T_STRUCT {
        ok := SkipStruct();
      } else if t == T_LIST || t == T_SET {
        ok := SkipListOrSet();
      } else if t == T_MAP {
        ok := SkipMap();
      }
    }

    method SkipStruct() returns (ok: bool)
      modifies this
      ensures pos >= old(pos)
      ensures StructEnd(buf, old(pos)) == if ok then Some(pos) else None
      decreases Left(buf, pos), 0, 0
    {
      hide ValueEnd;
      while true
        invariant pos >= old(pos)
        invariant StructEnd(buf, pos) == StructEnd(buf, old(pos))
        decreases Left(buf, pos)
      {
        var t := ReadByte();
        if t.None? {
          return false;
        }
        if t.value == T_STOP {
          return true;
        }
        var _ := ReadI16();
        var skipped := SkipValue(t.value);
        if !skipped {
          return false;
        }
      }
      ok := true;
    }

    method SkipListOrSet() returns (ok: bool)
      modifies this
      ensures pos >= old(pos)
      ensures ListEnd(buf, old(pos)) == if ok then Some(pos) else None
      decreases Left(buf, pos), 0, 0
    {
      hide ValueEnd;
      var et := ReadByte();
      if et.None? {
        return false;
      }
      var n := ReadI32();
      var i := 0;
      while i < n
        invariant 0 <= i <= Max(0, n) && pos >= old(pos) + 5
        invariant ElementsEnd(buf, et.value, n - i, pos) == ListEnd(buf, old(pos))
      {
        var skipped := SkipValue(et.value);
        if !skipped {
          return false;
        }
        i := i + 1;
      }
      ok := true;
    }

    method SkipMap() returns (ok: bool)
      modifies this
      ensures pos >= old(pos)
      ensures MapEnd(buf, old(pos)) == if ok then Some(pos) else None
      decreases Left(buf, pos), 0, 0
    {
      hide ValueEnd;
      var kt := ReadByte();
      if kt.None? {
        return false;
      }
      var vt := ReadByte();
      if vt.None? {
        return false;
      }
      var n := ReadI32();
      var i := 0;
      while i < n
        invariant 0 <= i <= Max(0, n) && pos >= old(pos) + 6
        invariant PairsEnd(buf, kt.value, vt.value, n - i, pos) == MapEnd(buf, old(pos))
      {
        var skipped := SkipValue(kt.value);
        if !skipped {
          return false;
        }
        skipped := SkipValue(vt.value);
        if !skipped {
          return false;
        }
        i := i + 1;
      }
      ok := true;
    }

    method ReadSchemaElement() returns (r: Option<Element>)
      modifies this
      ensures pos >= old(pos)
      ensures ElementAt(buf, old(pos), NO_ELEMENT, utf8) == if r.Some? then Some((r.value, pos)) else None
    {
      hide ValueEnd, KindName, RepetitionName;
      var col := NO_ELEMENT;
      while true
        invariant pos >= old(pos)
        invariant ElementAt(buf, pos, col, utf8) == ElementAt(buf, old(pos), NO_ELEMENT, utf8)
        decreases Left(buf, pos)
      {
        var t := ReadByte();
        if t.None? {
          return None;
        }
        if t.value == T_STOP {
          return Some(col);
        }
        var fid := ReadI16();
        if fid == 1 && t.value == T_I32 {
          var n := ReadI32();
          col := col.(kind := Some(KindName(n)));
        } else if fid == 2 && t.value == T_I32 {
          var _ := ReadI32();
        } else if fid == 3 && t.value == T_I32 {
          var n := ReadI32();
          col := col.(repetition := Some(RepetitionName(n)));
        } else if fid == 4 && t.value == T_BINARY {
          var s := ReadBinary();
          col := col.(name := Some(s));
        } else if fid == 5 && t.value == T_I32 {
          var n := ReadI32();
          col := col.(numChildren := Some(n));
        } else {
          var skipped := SkipValue(t.value);
          if !skipped {
            return None;
          }
        }
      }
      r := None;
    }

    method ReadRowGroup() returns (r: Option<int>)
      modifies this
      ensures pos >= old(pos)
      ensures GroupAt(buf, old(pos), 0) == if r.Some? then Some((r.value, pos)) else None
    {
      hide ValueEnd, ToDouble, I64At;
      var total := 0;
      while true
        invariant pos >= old(pos)
        invariant GroupAt(buf, pos, total) == GroupAt(buf, old(pos), 0)
        decreases Left(buf, pos)
      {
        var t := ReadByte();
        if t.None? {
          return None;
        }
        if t.value == T_STOP {
          return Some(total);
        }
        var fid := ReadI16();
        if fid == 3 && t.value == T_I64 {
          var n := ReadI64();
          total := ToDouble(total + n);
        } else {
          var skipped := SkipValue(t.value);
          if !skipped {
            return None;
          }
        }
      }
      r := None;
    }

    /** The loop over the schema list; the columns read before an error are kept. */
    method ReadSchema(et: byte, n: int, columns: seq<Column>) returns (all: seq<Column>, ok: bool)
      modifies this
      ensures pos >= old(pos)
      ensures SchemaAt(buf, et, n, old(pos), columns, utf8) == (all, if ok then Some(pos) else None)
    {
      hide ValueEnd, ElementAt, ColumnOf;
      all := columns;
      var i := 0;
      while i < n
        invariant 0 <= i <= Max(0, n) && pos >= old(pos)
        invariant SchemaAt(buf, et, n - i, pos, all, utf8) == SchemaAt(buf, et, n, old(pos), columns, utf8)
      {
        if et == T_STRUCT {
          var e := ReadSchemaElement();
          if e.None? {
            return all, false;
          }
          all := all + ColumnOf(e.value);
        } else {
          var skipped := SkipValue(et);
          if !skipped {
            return all, false;
          }
        }
        i := i + 1;
      }
      ok := true;
    }

    /** The loop over the row groups. */
    method ReadRowGroups(et: byte, n: int, total: int) returns (sum: int, ok: bool)
      modifies this
      ensures pos >= old(pos)
      ensures GroupsAt(buf, et, n, old(pos), total) == (sum, if ok then Some(pos) else None)
    {
      hide ValueEnd, GroupAt, ToDouble;
      sum := total;
      var i := 0;
      while i < n
        invariant 0 <= i <= Max(0, n) && pos >= old(pos)
        invariant GroupsAt(buf, et, n - i, pos, sum) == GroupsAt(buf, et, n, old(pos), total)
      {
        if et == T_STRUCT {
          var size := ReadRowGroup();
          if size.None? {
            return sum, false;
          }
          sum := ToDouble(sum + size.value);
        } else {
          var skipped := SkipValue(et);
          if !skipped {
            return sum, false;
          }
        }
        i := i + 1;
      }
      ok := true;
    }

    /** One turn of the main loop after the type byte; `false` is an error inside it. */
    method ReadField(t: byte, acc: Summary) returns (next: Summary, ok: bool)
      requires t != T_STOP && 0 < pos <= |buf| && buf[pos - 1] == t
      modifies this
      ensures pos >= old(pos)
      ensures SummaryAt(buf, old(pos) - 1, acc, utf8) ==
              if ok then SummaryAt(buf, pos, next, utf8) else next.(truncated := true)
    {
      hide ValueEnd, SchemaAt, GroupsAt, ToDouble, I64At;
      var fid := ReadI16();
      next, ok := acc, true;
      if fid == 1 && t == T_I32 {
        var v := ReadI32();
        next := next.(version := v);
      } else if fid == 2 && t == T_LIST {
        var et := ReadByte();
        if et.None? {
          return next, false;
        }
        var n := ReadI32();
        var columns, done := ReadSchema(et.value, n, next.columns);
        next, ok := next.(columns := columns), done;
      } else if fid == 3 && t == T_I64 {
        var v := ReadI64();
        next := next.(numRows := v);
      } else if fid == 4 && t == T_LIST {
        var et := ReadByte();
        if et.None? {
          return next, false;
        }
        var n := ReadI32();
        var total, done := ReadRowGroups(et.value, n, next.totalByteSize);
        next, ok := next.(rowGroupCount := n, totalByteSize := total), done;
      } else {
        ok := SkipValue(t);
      }
    }
  }

  /** The file decoder terminates on every input and computes `Footer.Parsed`. */
  method ParseParquet(bytes: seq<byte>, utf8: Decoder) returns (r: Option<Summary>)
    ensures r == Parsed(bytes, utf8)
    ensures r.None? <==> |bytes| < 12 || bytes[..4] != [0x50, 0x41, 0x52, 0x31]
  {
    hide SummaryAt;
    if |bytes| < 12 {
      return None;
    }
    if bytes[..4] != MAGIC {
      return None;
    }
    var tail := |bytes| - 8;
    var len := LittleEndianAt(bytes, tail);
    if len == 0 || len > |bytes| - 8 {
      return Some(NO_SUMMARY.(truncated := true));
    }
    var s := ReadFooter(bytes[tail - len..tail], utf8);
    r := Some(s);
  }

  method ReadFooter(footer: seq<byte>, utf8: Decoder) returns (s: Summary)
    ensures s == SummaryAt(footer, 0, NO_SUMMARY, utf8)
  {
    hide ValueEnd, SchemaAt, GroupsAt, ToDouble, I64At;
    var reader := new ThriftReader(footer, utf8);
    s := NO_SUMMARY;
    while true
      invariant reader.buf == footer && reader.utf8 == utf8
      invariant SummaryAt(footer, reader.pos, s, utf8) == SummaryAt(footer, 0, NO_SUMMARY, utf8)
      decreases Left(footer, reader.pos)
    {
      var t := reader.ReadByte();
      if t.None? {
        return s.(truncated := true);
      }
      if t.value == T_STOP {
        return s;
      }
      var next, ok := reader.ReadField(t.value, s);
      if !ok {
        return next.(truncated := true);
      }
      s := next;
    }
  }
}
