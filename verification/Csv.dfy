/**
 The CSV preview: the line splitter, the delimiter guess and the table parser, against tables
 written with the quoting of RFC 4180 section 2.
 */
module Csv {
  import opened Prelude
  import opened Text

  const QUOTE := '\"'

  // ----- splitting one line

  /** The cells of the rest of a line, from the cell read so far and the quote flag. */
  function Cells(line: string, delim: char, cur: string, inQuotes: bool): seq<string>
    decreases |line|
  {
    if line == [] then [cur]
    else
      var c := line[0];
      if c == QUOTE then
        if inQuotes && |line| > 1 && line[1] == QUOTE then Cells(line[2..], delim, cur + [QUOTE], inQuotes)
        else Cells(line[1..], delim, cur, !inQuotes)
      else if c == delim && !inQuotes then [cur] + Cells(line[1..], delim, [], inQuotes)
      else Cells(line[1..], delim, cur + [c], inQuotes)
  }

  function TrimAll(cells: seq<string>): (r: seq<string>)
    ensures |r| == |cells| && forall i :: 0 <= i < |cells| ==> r[i] == Trim(cells[i])
  {
    seq(|cells|, i requires 0 <= i < |cells| => Trim(cells[i]))
  }

  function Split(line: string, delim: char): seq<string> { TrimAll(Cells(line, delim, [], false)) }

  method SplitCsvLine(line: string, delim: char) returns (cells: seq<string>)
    ensures cells == Split(line, delim)
  {
    cells := [];
    var cur, inQuotes := "", false;
    var i := 0;
    while i < |line|
      invariant 0 <= i <= |line|
      invariant cells + Cells(line[i..], delim, cur, inQuotes) == Cells(line, delim, [], false)
    {
      var ch := line[i];
      assert line[i..][1..] == line[i + 1..];
      if ch == QUOTE {
        if inQuotes && i + 1 < |line| && line[i + 1] == QUOTE {
          assert line[i..][2..] == line[i + 2..];
          cur := cur + [QUOTE];
          i := i + 1;
        } else {
          inQuotes := !inQuotes;
        }
      } else if ch == delim && !inQuotes {
        assert cells + ([cur] + Cells(line[i + 1..], delim, [], false)) ==
            (cells + [cur]) + Cells(line[i + 1..], delim, [], false);
        cells := cells + [cur];
        cur := [];
      } else {
        cur := cur + [ch];
      }
      i := i + 1;
    }
    assert line[i..] == [];
    cells := cells + [cur];
    cells := TrimAll(cells);
  }

  // ----- writing a line

  datatype Form = Bare(text: string) | Quoted(text: string)

  /** A bare field has neither quotes nor delimiters. */
  predicate Legal(f: Form, delim: char) {
    f.Bare? ==> QUOTE !in f.text && delim !in f.text
  }

  function Escape(text: string): string {
    if text == [] then []
    else (if text[0] == QUOTE then [QUOTE, QUOTE] else [text[0]]) + Escape(text[1..])
  }

  function WriteField(f: Form): string {
    match f
    case Bare(text) => text
    case Quoted(text) => [QUOTE] + Escape(text) + [QUOTE]
  }

  function WriteLine(fields: seq<Form>, delim: char): string
    requires fields != []
  {
    if |fields| == 1 then WriteField(fields[0])
    else WriteField(fields[0]) + [delim] + WriteLine(fields[1..], delim)
  }

  function Texts(fields: seq<Form>): (r: seq<string>)
    ensures |r| == |fields| && forall i :: 0 <= i < |fields| ==> r[i] == fields[i].text
  {
    seq(|fields|, i requires 0 <= i < |fields| => fields[i].text)
  }

  // ----- the round trip of a line

  lemma {:induction false} CellsBare(text: string, rest: string, delim: char, cur: string)
    requires QUOTE !in text && delim !in text
    ensures Cells(text + rest, delim, cur, false) == Cells(rest, delim, cur + text, false)
    decreases |text|
  {
    if text == [] {
      assert text + rest == rest && cur + text == cur;
    } else {
      assert (text + rest)[1..] == text[1..] + rest;
      assert cur + [text[0]] + text[1..] == cur + text;
      CellsBare(text[1..], rest, delim, cur + [text[0]]);
    }
  }

  lemma {:induction false} CellsQuoted(text: string, rest: string, delim: char, cur: string)
    requires delim != QUOTE && (rest == [] || rest[0] != QUOTE)
    ensures Cells(Escape(text) + [QUOTE] + rest, delim, cur, true) == Cells(rest, delim, cur + text, false)
    decreases |text|
  {
    var line := Escape(text) + [QUOTE] + rest;
    if text == [] {
      assert line == [QUOTE] + rest && line[1..] == rest && cur + text == cur;
    } else {
      var tail := Escape(text[1..]) + [QUOTE] + rest;
      assert cur + [text[0]] + text[1..] == cur + text;
      CellsQuoted(text[1..], rest, delim, cur + [text[0]]);
      if text[0] == QUOTE {
        assert line == [QUOTE, QUOTE] + tail && line[2..] == tail;
      } else {
        assert line == [text[0]] + tail && line[1..] == tail;
      }
    }
  }

  lemma CellsEnd(delim: char, cur: string, inQuotes: bool)
    ensures Cells([], delim, cur, inQuotes) == [cur]
  {
  }

  lemma CellsOpen(rest: string, delim: char, cur: string)
    ensures Cells([QUOTE] + rest, delim, cur, false) == Cells(rest, delim, cur, true)
  {
    assert ([QUOTE] + rest)[1..] == rest;
  }

  lemma CellsNext(rest: string, delim: char, cur: string)
    requires delim != QUOTE
    ensures Cells([delim] + rest, delim, cur, false) == [cur] + Cells(rest, delim, [], false)
  {
    assert ([delim] + rest)[1..] == rest;
  }

  lemma CellsField(f: Form, rest: string, delim: char)
    requires Legal(f, delim) && delim != QUOTE && (rest == [] || rest[0] != QUOTE)
    ensures Cells(WriteField(f) + rest, delim, [], false) == Cells(rest, delim, f.text, false)
  {
    hide Cells, Escape;
    assert [] + f.text == f.text;
    if f.Bare? {
      CellsBare(f.text, rest, delim, []);
    } else {
      var inner := Escape(f.text) + [QUOTE] + rest;
      assert WriteField(f) + rest == [QUOTE] + inner;
      CellsOpen(inner, delim, []);
      CellsQuoted(f.text, rest, delim, []);
    }
  }

  lemma TextsCons(fields: seq<Form>)
    requires fields != []
    ensures Texts(fields) == [fields[0].text] + Texts(fields[1..])
  {
    hide Texts;
  }

  lemma {:induction false} CellsLine(fields: seq<Form>, delim: char)
    requires fields != [] && delim != QUOTE
    requires forall i :: 0 <= i < |fields| ==> Legal(fields[i], delim)
    ensures Cells(WriteLine(fields, delim), delim, [], false) == Texts(fields)
  {
    hide Cells, WriteField, Texts, Legal;
    TextsCons(fields);
    if |fields| == 1 {
      assert WriteField(fields[0]) + [] == WriteField(fields[0]);
      CellsField(fields[0], [], delim);
      CellsEnd(delim, fields[0].text, false);
      assert Texts(fields[1..]) == [];
    } else {
      var rest := WriteLine(fields[1..], delim);
      CellsLine(fields[1..], delim);
      CellsField(fields[0], [delim] + rest, delim);
      CellsNext(rest, delim, fields[0].text);
      assert WriteLine(fields, delim) == WriteField(fields[0]) + ([delim] + rest);
    }
  }

  /** Splitting a written line gives the fields back, trimmed. */
  lemma LineRoundTrip(fields: seq<Form>, delim: char)
    requires fields != [] && delim != QUOTE
    requires forall i :: 0 <= i < |fields| ==> Legal(fields[i], delim)
    ensures Split(WriteLine(fields, delim), delim) == TrimAll(Texts(fields))
    ensures (forall f :: f in fields ==> NoOuterSpace(f.text)) ==>
              Split(WriteLine(fields, delim), delim) == Texts(fields)
  {
    CellsLine(fields, delim);
    if forall f :: f in fields ==> NoOuterSpace(f.text) {
      forall i | 0 <= i < |fields|
        ensures Trim(Texts(fields)[i]) == Texts(fields)[i]
      {
        TrimNothing(fields[i].text);
      }
    }
  }

  // ----- the delimiter guess

  function CountOf(s: string, c: char): nat {
    if s == [] then 0 else (if s[0] == c then 1 else 0) + CountOf(s[1..], c)
  }

  function DetectDelimiter(line: string): char {
    var tabs, commas, semis := CountOf(line, '\t'), CountOf(line, ','), CountOf(line, ';');
    if tabs >= commas && tabs >= semis then '\t'
    else if semis > commas then ';'
    else ','
  }

  lemma {:induction false} CountAppears(s: string, c: char)
    ensures c in s <==> CountOf(s, c) > 0
  {
    if s != [] {
      CountAppears(s[1..], c);
      assert s == [s[0]] + s[1..];
    }
  }

  lemma {:induction false} CountIsMultiplicity(s: string, c: char)
    ensures CountOf(s, c) == multiset(s)[c]
  {
    if s != [] {
      CountIsMultiplicity(s[1..], c);
      assert s == [s[0]] + s[1..];
    }
  }

  /** Of delimiters that are equally frequent, the tab is preferred to the comma and that to the semicolon. */
  function Rank(d: char): nat { if d == '\t' then 0 else if d == ',' then 1 else 2 }

  /** The guess is the most frequent of the three delimiters. */
  lemma MostFrequentDelimiter(line: string, d: char)
    requires IsDelimiter(d) && d != DetectDelimiter(line)
    ensures IsDelimiter(DetectDelimiter(line))
    ensures var guess := DetectDelimiter(line);
            && multiset(line)[guess] >= multiset(line)[d]
            && (multiset(line)[guess] == multiset(line)[d] ==> Rank(guess) < Rank(d))
  {
    CountIsMultiplicity(line, '\t');
    CountIsMultiplicity(line, ',');
    CountIsMultiplicity(line, ';');
  }

  lemma DelimiterWritten(fields: seq<Form>, delim: char)
    requires |fields| > 1
    ensures delim in WriteLine(fields, delim)
  {
    var line := WriteLine(fields, delim);
    assert line[|WriteField(fields[0])|] == delim;
  }

  predicate IsDelimiter(c: char) { c == '\t' || c == ',' || c == ';' }

  /** A line of several fields that holds none of the other two delimiters is recognised. */
  lemma DetectsWritten(fields: seq<Form>, delim: char)
    requires |fields| > 1 && IsDelimiter(delim)
    requires forall d :: IsDelimiter(d) && d != delim ==> d !in WriteLine(fields, delim)
    ensures DetectDelimiter(WriteLine(fields, delim)) == delim
  {
    var line := WriteLine(fields, delim);
    DelimiterWritten(fields, delim);
    CountAppears(line, '\t');
    CountAppears(line, ',');
    CountAppears(line, ';');
  }

  // ----- tables

  /** Lines of a text; a line ends in a line feed with or without a carriage return. */
  function Lines(text: string, cur: string): seq<string>
    decreases |text|
  {
    if text == [] then [cur]
    else if text[0] == '\n' then [cur] + Lines(text[1..], [])
    else if text[0] == '\r' && |text| > 1 && text[1] == '\n' then [cur] + Lines(text[2..], [])
    else Lines(text[1..], cur + [text[0]])
  }

  function NonEmpty(lines: seq<string>): seq<string> {
    if lines == [] then []
    else (if lines[0] != [] then [lines[0]] else []) + NonEmpty(lines[1..])
  }

  datatype Preview = Preview(headers: seq<string>, rows: seq<seq<string>>, totalLines: nat, delimiter: char)

  function SplitAll(lines: seq<string>, delim: char): (r: seq<seq<string>>)
    ensures |r| == |lines| && forall i :: 0 <= i < |lines| ==> r[i] == Split(lines[i], delim)
  {
    seq(|lines|, i requires 0 <= i < |lines| => Split(lines[i], delim))
  }

  function ParseCsv(text: string, maxRows: nat): Preview {
    var lines := NonEmpty(Lines(text, []));
    if lines == [] then Preview([], [], 0, ',')
    else
      var delim := DetectDelimiter(lines[0]);
      var rest := lines[1..];
      Preview(Split(lines[0], delim), SplitAll(rest[..Min(maxRows, |rest|)], delim), |rest|, delim)
  }

  // ----- every text is its lines

  function LineEnd(crlf: bool): string { if crlf then ['\r', '\n'] else ['\n'] }

  /** Lines with the given ends between them; the last line has none. */
  function Join(lines: seq<string>, crlf: seq<bool>): string
    requires lines != [] && |crlf| == |lines| - 1
  {
    if |lines| == 1 then lines[0] else lines[0] + LineEnd(crlf[0]) + Join(lines[1..], crlf[1..])
  }

  /** No line holds a line feed, nor ends in a carriage return that belongs to its end. */
  predicate Apart(lines: seq<string>, crlf: seq<bool>) {
    && lines != [] && |crlf| == |lines| - 1
    && (forall i :: 0 <= i < |lines| ==> '\n' !in lines[i])
    && (forall i :: 0 <= i < |crlf| && !crlf[i] && lines[i] != [] ==> lines[i][|lines[i]| - 1] != '\r')
  }

  lemma {:induction false} LinesLast(s: string, cur: string)
    requires '\n' !in s
    ensures Lines(s, cur) == [cur + s]
    decreases |s|
  {
    if s == [] {
      assert cur + s == cur;
    } else {
      assert cur + [s[0]] + s[1..] == cur + s;
      assert forall k :: 0 <= k < |s[1..]| ==> s[1..][k] == s[k + 1];
      LinesLast(s[1..], cur + [s[0]]);
    }
  }

  lemma {:induction false} LinesFirst(s: string, crlf: bool, rest: string, cur: string)
    requires '\n' !in s && (!crlf && s != [] ==> s[|s| - 1] != '\r')
    ensures Lines(s + LineEnd(crlf) + rest, cur) == [cur + s] + Lines(rest, [])
    decreases |s|
  {
    var text := s + LineEnd(crlf) + rest;
    if s == [] {
      assert text[|LineEnd(crlf)|..] == rest && cur + s == cur;
    } else {
      var tail := s[1..] + LineEnd(crlf) + rest;
      assert text[1..] == tail && text[0] == s[0];
      assert |s| == 1 ==> text[1] == LineEnd(crlf)[0];
      assert |s| > 1 ==> text[1] == s[1];
      assert cur + [s[0]] + s[1..] == cur + s;
      assert forall k :: 0 <= k < |s[1..]| ==> s[1..][k] == s[k + 1];
      LinesFirst(s[1..], crlf, rest, cur + [s[0]]);
    }
  }

  /** Joined lines are split at the same places, whatever the ends, with empty lines anywhere. */
  lemma {:induction false} LinesOfJoin(lines: seq<string>, crlf: seq<bool>)
    requires Apart(lines, crlf)
    ensures Lines(Join(lines, crlf), []) == lines
    decreases |lines|
  {
    hide Lines;
    assert [] + lines[0] == lines[0];
    if |lines| == 1 {
      LinesLast(lines[0], []);
    } else {
      assert forall i :: 0 <= i < |crlf[1..]| ==> crlf[1..][i] == crlf[i + 1];
      LinesOfJoin(lines[1..], crlf[1..]);
      LinesFirst(lines[0], crlf[0], Join(lines[1..], crlf[1..]), []);
      assert lines == [lines[0]] + lines[1..];
    }
  }

  /** Every text is its lines joined: nothing is lost at the end of a text or between its lines. */
  lemma {:induction false} JoinOfLines(text: string, cur: string) returns (crlf: seq<bool>)
    requires '\n' !in cur && (cur != [] && text != [] && text[0] == '\n' ==> cur[|cur| - 1] != '\r')
    ensures Apart(Lines(text, cur), crlf) && Join(Lines(text, cur), crlf) == cur + text
    decreases |text|
  {
    if text == [] {
      crlf := [];
      assert cur + text == cur;
      return;
    }
    hide Join, Apart, Lines;
    if text[0] == '\n' {
      var rest := JoinOfLines(text[1..], []);
      crlf := JoinMore(cur, false, text[1..], rest);
      LineCut(text, cur, false);
    } else if text[0] == '\r' && |text| > 1 && text[1] == '\n' {
      var rest := JoinOfLines(text[2..], []);
      crlf := JoinMore(cur, true, text[2..], rest);
      LineCut(text, cur, true);
    } else {
      OneMoreChar(text, cur);
      crlf := JoinOfLines(text[1..], cur + [text[0]]);
    }
  }

  lemma {:induction false} OneMoreChar(text: string, cur: string)
    requires text != [] && text[0] != '\n' && !(text[0] == '\r' && |text| > 1 && text[1] == '\n')
    requires '\n' !in cur
    ensures cur + [text[0]] + text[1..] == cur + text && '\n' !in cur + [text[0]]
    ensures Lines(text, cur) == Lines(text[1..], cur + [text[0]])
    ensures text[1..] != [] && text[1..][0] == '\n' ==> (cur + [text[0]])[|cur|] != '\r'
  {
  }

  lemma {:induction false} LineCut(text: string, cur: string, end: bool)
    requires |LineEnd(end)| <= |text| && text[..|LineEnd(end)|] == LineEnd(end)
    ensures var rest := text[|LineEnd(end)|..];
            Lines(text, cur) == [cur] + Lines(rest, []) && cur + text == cur + LineEnd(end) + rest
  {
    assert text == LineEnd(end) + text[|LineEnd(end)|..];
    LinesFirst([], end, text[|LineEnd(end)|..], cur);
    assert [] + LineEnd(end) == LineEnd(end) && cur + [] == cur;
  }

  lemma JoinMore(line: string, end: bool, text: string, crlf: seq<bool>) returns (more: seq<bool>)
    requires '\n' !in line && (!end && line != [] ==> line[|line| - 1] != '\r')
    requires Apart(Lines(text, []), crlf) && Join(Lines(text, []), crlf) == [] + text
    ensures Apart([line] + Lines(text, []), more)
    ensures Join([line] + Lines(text, []), more) == line + LineEnd(end) + text
  {
    hide Lines;
    more := [end] + crlf;
    var rest := Lines(text, []);
    var lines := [line] + rest;
    assert lines[1..] == rest && more[1..] == crlf;
    assert forall i :: 0 < i < |lines| ==> lines[i] == rest[i - 1];
    assert forall i :: 0 < i < |more| ==> more[i] == crlf[i - 1];
  }

  /** The lines that are not empty, in order. */
  lemma {:induction false} NonEmptyPicks(lines: seq<string>) returns (at: seq<nat>)
    ensures Picked(lines, NonEmpty(lines), at) && forall i: nat :: i < |lines| ==> (i in at <==> lines[i] != [])
  {
    if lines == [] {
      at := [];
    } else {
      var h, t := lines[0], lines[1..];
      assert lines == [h] + t;
      var bt := NonEmptyPicks(t);
      at := PickedCons(h, t, NonEmpty(t), bt, h != []);
      assert [] + NonEmpty(t) == NonEmpty(t);
    }
  }

  lemma NonEmptyIs(lines: seq<string>, r: seq<string>, at: seq<nat>)
    requires Picked(lines, r, at) && forall i: nat :: i < |lines| ==> (i in at <==> lines[i] != [])
    ensures NonEmpty(lines) == r
  {
    hide NonEmpty, Picked;
    var bt := NonEmptyPicks(lines);
    PickedUnique(lines, NonEmpty(lines), bt, r, at);
  }

  // ----- the round trip of a table

  function WriteLines(table: seq<seq<Form>>, delim: char): (r: seq<string>)
    requires forall i :: 0 <= i < |table| ==> table[i] != []
    ensures |r| == |table| && forall i :: 0 <= i < |table| ==> r[i] == WriteLine(table[i], delim)
  {
    seq(|table|, i requires 0 <= i < |table| => WriteLine(table[i], delim))
  }

  /** The written rows of a table among empty lines, with any line ends between and none at the end. */
  ghost predicate Written(table: seq<seq<Form>>, delim: char, lines: seq<string>, at: seq<nat>, crlf: seq<bool>)
    requires forall i :: 0 <= i < |table| ==> table[i] != []
  {
    && Apart(lines, crlf) && Picked(lines, WriteLines(table, delim), at)
    && forall i: nat :: i < |lines| ==> (i in at <==> lines[i] != [])
  }

  /**
   A written table is read back: its header, its first `maxRows` rows and its number of rows, as
   long as the header has several fields and none of the other two delimiters. Empty lines may
   stand anywhere, and the last line need not be ended.
   */
  lemma TableRoundTrip(table: seq<seq<Form>>, delim: char, lines: seq<string>, at: seq<nat>, crlf: seq<bool>,
                       maxRows: nat)
    requires table != [] && IsDelimiter(delim) && forall i :: 0 <= i < |table| ==> table[i] != []
    requires forall i, k :: 0 <= i < |table| && 0 <= k < |table[i]| ==> Legal(table[i][k], delim)
    requires Written(table, delim, lines, at, crlf) && |table[0]| > 1
    requires forall d :: IsDelimiter(d) && d != delim ==> d !in WriteLine(table[0], delim)
    ensures var p := ParseCsv(Join(lines, crlf), maxRows);
            && p.delimiter == delim && p.totalLines == |table| - 1
            && p.headers == TrimAll(Texts(table[0]))
            && |p.rows| == Min(maxRows, |table| - 1)
            && forall i :: 0 <= i < |p.rows| ==> p.rows[i] == TrimAll(Texts(table[i + 1]))
  {
    hide Split, Cells, WriteLine, DetectDelimiter, Lines, NonEmpty, Join, TrimAll, Texts, Legal, Apart, Picked;
    var rows := WriteLines(table, delim);
    LinesOfJoin(lines, crlf);
    NonEmptyIs(lines, rows, at);
    DetectsWritten(table[0], delim);
    forall i | 0 <= i < |table|
      ensures Split(rows[i], delim) == TrimAll(Texts(table[i]))
    {
      LineRoundTrip(table[i], delim);
    }
  }

  predicate AllEmpty(lines: seq<string>) { forall i :: 0 <= i < |lines| ==> lines[i] == [] }

  /** A text of line ends alone gives the empty preview, and only such a text. */
  lemma {:induction false} EmptyPreviewIff(text: string, maxRows: nat)
    ensures ParseCsv(text, maxRows) == Preview([], [], 0, ',') <==> AllEmpty(Lines(text, []))
  {
    hide Lines, Split, DetectDelimiter, NonEmpty;
    var lines := Lines(text, []);
    var at := NonEmptyPicks(lines);
    if NonEmpty(lines) == [] {
      assert forall i: nat :: i < |lines| ==> i !in at;
    } else {
      assert at[0] in at && lines[at[0]] != [];
      assert !AllEmpty(lines);
      var first := NonEmpty(lines)[0];
      SomeCell(first, DetectDelimiter(first));
      var p := ParseCsv(text, maxRows);
      assert p.headers == Split(first, DetectDelimiter(first));
      assert |p.headers| > 0;
      assert p.headers != Preview([], [], 0, ',').headers;
    }
  }

  lemma SomeCell(line: string, delim: char)
    ensures Split(line, delim) != []
  {
    CellsNotEmpty(line, delim, [], false);
  }

  lemma {:induction false} CellsNotEmpty(line: string, delim: char, cur: string, inQuotes: bool)
    ensures Cells(line, delim, cur, inQuotes) != []
    decreases |line|
  {
    if line != [] && !(line[0] == delim && line[0] != QUOTE && !inQuotes) {
      if line[0] == QUOTE && inQuotes && |line| > 1 && line[1] == QUOTE {
        CellsNotEmpty(line[2..], delim, cur + [QUOTE], inQuotes);
      } else if line[0] == QUOTE {
        CellsNotEmpty(line[1..], delim, cur, !inQuotes);
      } else {
        CellsNotEmpty(line[1..], delim, cur + [line[0]], inQuotes);
      }
    }
  }
}
