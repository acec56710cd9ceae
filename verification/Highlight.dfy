/** Highlighting search terms in a key: which ranges are built, and what is rendered. */
module Highlight {
  import opened Prelude
  import opened Occurrences
  import opened Ranges

  /** The query is split at white space and empty terms are dropped. */
  predicate NoEmptyTerm(terms: seq<string>) { forall i :: 0 <= i < |terms| ==> terms[i] != [] }

  /** Some reported occurrence of the term covers position `x`. */
  predicate OneTermCovers(text: string, term: string, x: nat)
    requires term != []
  {
    exists k :: 0 <= k < |Greedy(text, term, 0)| && Greedy(text, term, 0)[k] <= x < Greedy(text, term, 0)[k] + |term|
  }

  /** Some reported occurrence of some term covers position `x`. */
  predicate TermCovers(text: string, terms: seq<string>, x: nat)
    requires NoEmptyTerm(terms)
  {
    exists i :: 0 <= i < |terms| && OneTermCovers(text, terms[i], x)
  }

  // ----- building the ranges

  /** Ranges of the occurrences of one term. */
  function TermRanges(positions: seq<nat>, n: nat): (rs: seq<Range>)
    ensures |rs| == |positions| && forall k :: 0 <= k < |rs| ==> rs[k] == Range(positions[k], positions[k] + n)
  {
    seq(|positions|, k requires 0 <= k < |positions| => Range(positions[k], positions[k] + n))
  }

  function AllRanges(text: string, terms: seq<string>): seq<Range>
    requires NoEmptyTerm(terms)
  {
    if terms == [] then []
    else
      var init, t := terms[..|terms| - 1], terms[|terms| - 1];
      AllRanges(text, init) + TermRanges(Greedy(text, t, 0), |t|)
  }

  lemma TermRangesCover(text: string, term: string, x: nat)
    requires term != []
    ensures NonEmpty(TermRanges(Greedy(text, term, 0), |term|))
    ensures Covers(TermRanges(Greedy(text, term, 0), |term|), x) <==> OneTermCovers(text, term, x)
  {
    hide Greedy;
    var g := Greedy(text, term, 0);
    var rs := TermRanges(g, |term|);
    if OneTermCovers(text, term, x) {
      var k :| 0 <= k < |g| && g[k] <= x < g[k] + |term|;
      assert rs[k].start <= x < rs[k].end;
    }
  }

  lemma {:induction false} AllRangesCover(text: string, terms: seq<string>, x: nat)
    requires NoEmptyTerm(terms)
    ensures NonEmpty(AllRanges(text, terms))
    ensures Covers(AllRanges(text, terms), x) <==> TermCovers(text, terms, x)
  {
    hide Greedy, Covers, OneTermCovers, TermRanges;
    if terms == [] {
      CoversNone(x);
    } else {
      var init, t := terms[..|terms| - 1], terms[|terms| - 1];
      AllRangesCover(text, init, x);
      TermRangesCover(text, t, x);
      CoversConcat(AllRanges(text, init), TermRanges(Greedy(text, t, 0), |t|), x);
      assert terms == init + [t];
    }
  }

  lemma ExtendValues(rs: seq<HighlightRange>, r: HighlightRange)
    ensures Values(rs + [r]) == Values(rs) + [r.Value()]
  {
    hide Values;
  }

  /** The lower-cased text and the terms are given; the ranges are new objects. */
  method BuildHighlights(lowered: string, terms: seq<string>) returns (merged: seq<HighlightRange>)
    requires NoEmptyTerm(terms)
    ensures Values(merged) == Merged(AllRanges(lowered, terms))
  {
    hide Values, Greedy, Merged;
    var ranges: seq<HighlightRange> := [];
    assert Values(ranges) == [];
    for i := 0 to |terms|
      invariant fresh(ranges)
      invariant Values(ranges) == AllRanges(lowered, terms[..i])
    {
      var t := terms[i];
      assert terms[..i + 1][..i] == terms[..i];
      var positions := FindAllOccurrences(lowered, t);
      ghost var base := AllRanges(lowered, terms[..i]);
      ghost var own := TermRanges(positions, |t|);
      assert base + own[..0] == base;
      for k := 0 to |positions|
        invariant fresh(ranges)
        invariant Values(ranges) == base + own[..k]
      {
        var r := new HighlightRange(positions[k], positions[k] + |t|);
        ExtendValues(ranges, r);
        assert own[..k + 1] == own[..k] + [own[k]];
        ranges := ranges + [r];
      }
      assert own[..|own|] == own;
    }
    assert terms[..|terms|] == terms;
    merged := MergeRanges(ranges);
  }

  // ----- rendering

  datatype Part = Part(marked: bool, text: string)

  function Slice(s: string, a: nat, b: nat): string {
    var lo := Min(a, |s|);
    s[lo..Max(lo, Min(b, |s|))]
  }

  function Flatten(parts: seq<Part>): string {
    if parts == [] then [] else Flatten(parts[..|parts| - 1]) + parts[|parts| - 1].text
  }

  /** For each rendered character, whether it stands in a mark. */
  function Marks(parts: seq<Part>): seq<bool> {
    if parts == [] then []
    else
      var p := parts[|parts| - 1];
      Marks(parts[..|parts| - 1]) + seq(|p.text|, _ => p.marked)
  }

  /** Ranges in order, not overlapping. */
  predicate InOrder(rs: seq<Range>) {
    && (forall i :: 0 <= i < |rs| ==> rs[i].start <= rs[i].end)
    && (forall i, j :: 0 <= i < j < |rs| ==> rs[i].end <= rs[j].start)
  }

  /** The parts render the first `cursor` characters, marked where the ranges cover them. */
  ghost predicate Rendered(parts: seq<Part>, text: string, rs: seq<Range>, cursor: nat) {
    var n := Min(cursor, |text|);
    && Flatten(parts) == text[..n]
    && |Marks(parts)| == n
    && forall x :: 0 <= x < n ==> Marks(parts)[x] == Covers(rs, x)
  }

  /** Rendering one more stretch of the text with one mark. */
  lemma RenderMore(parts: seq<Part>, text: string, rs: seq<Range>, cursor: nat, next: nat, marked: bool)
    requires Rendered(parts, text, rs, cursor) && cursor <= next
    requires forall x :: cursor <= x < next ==> Covers(rs, x) == marked
    ensures Rendered(parts + [Part(marked, Slice(text, cursor, next))], text, rs, next)
  {
    var piece := Slice(text, cursor, next);
    var parts' := parts + [Part(marked, piece)];
    assert parts'[..|parts|] == parts;
    assert text[..Min(next, |text|)] == text[..Min(cursor, |text|)] + piece;
    assert Marks(parts') == Marks(parts) + seq(|piece|, _ => marked);
  }

  lemma NoPartYet(text: string, rs: seq<Range>)
    ensures Rendered([], text, rs, 0)
  {
  }

  /** Positions before a range and after the ranges before it are not covered; its own are. */
  lemma CoverAround(rs: seq<Range>, i: nat, cursor: nat, x: nat)
    requires InOrder(rs) && i <= |rs| && (forall k :: 0 <= k < i ==> rs[k].end <= cursor) && cursor <= x
    ensures (if i < |rs| then x < rs[i].start else true) ==> !Covers(rs, x)
    ensures i < |rs| && rs[i].start <= x < rs[i].end ==> Covers(rs, x)
  {
    if i < |rs| && x < rs[i].start {
      forall k | 0 <= k < |rs|
        ensures !(rs[k].start <= x < rs[k].end)
      {
        if k > i {
          assert rs[i].end <= rs[k].start;
        }
      }
    }
  }

  /** For ranges in order, the parts concatenate to the text and mark exactly what is covered. */
  method Highlighted(text: string, ranges: seq<Range>) returns (parts: seq<Part>)
    ensures InOrder(ranges) ==> Rendered(parts, text, ranges, |text|)
  {
    hide Rendered, Covers;
    NoPartYet(text, ranges);
    if ranges == [] {
      RenderMore([], text, ranges, 0, |text|, false) by {
        forall x | 0 <= x < |text| {
          CoverAround(ranges, 0, 0, x);
        }
      }
      parts := [Part(false, text)];
      assert Slice(text, 0, |text|) == text;
      assert parts == [] + [Part(false, text)];
      return;
    }
    parts := [];
    var cursor: nat := 0;
    for i := 0 to |ranges|
      invariant InOrder(ranges) ==>
                (forall k :: 0 <= k < i ==> ranges[k].end <= cursor) && (i < |ranges| ==> cursor <= ranges[i].start)
      invariant InOrder(ranges) ==> Rendered(parts, text, ranges, cursor)
    {
      var r := ranges[i];
      if InOrder(ranges) {
        BeforeAndInside(parts, text, ranges, i, cursor);
        assert parts + [] == parts;
      }
      if r.start > cursor {
        parts := parts + [Part(false, Slice(text, cursor, r.start))];
      }
      parts := parts + [Part(true, Slice(text, r.start, r.end))];
      cursor := r.end;
    }
    if InOrder(ranges) {
      AfterAll(parts, text, ranges, cursor);
    }
    if cursor < |text| {
      parts := parts + [Part(false, Slice(text, cursor, |text|))];
    }
  }

  lemma BeforeAndInside(parts: seq<Part>, text: string, rs: seq<Range>, i: nat, cursor: nat)
    requires InOrder(rs) && i < |rs| && (forall k :: 0 <= k < i ==> rs[k].end <= cursor) && cursor <= rs[i].start
    requires Rendered(parts, text, rs, cursor)
    ensures var r := rs[i];
            var gap := if r.start > cursor then [Part(false, Slice(text, cursor, r.start))] else [];
            Rendered(parts + gap + [Part(true, Slice(text, r.start, r.end))], text, rs, r.end)
  {
    hide Rendered, Covers, Slice;
    var r := rs[i];
    forall x: nat | cursor <= x {
      CoverAround(rs, i, cursor, x);
    }
    var before := parts;
    if r.start > cursor {
      RenderMore(parts, text, rs, cursor, r.start, false);
      before := parts + [Part(false, Slice(text, cursor, r.start))];
    } else {
      assert parts + [] == parts;
    }
    RenderMore(before, text, rs, r.start, r.end, true);
  }

  lemma AfterAll(parts: seq<Part>, text: string, rs: seq<Range>, cursor: nat)
    requires InOrder(rs) && forall k :: 0 <= k < |rs| ==> rs[k].end <= cursor
    requires Rendered(parts, text, rs, cursor)
    ensures if cursor < |text| then Rendered(parts + [Part(false, Slice(text, cursor, |text|))], text, rs, |text|)
            else Rendered(parts, text, rs, |text|)
  {
    forall x: nat | cursor <= x {
      CoverAround(rs, |rs|, cursor, x);
    }
    if cursor < |text| {
      RenderMore(parts, text, rs, cursor, |text|, false);
    }
  }

  // ----- both together

  /**
   Highlighting a key: the rendered text is the key itself, and a character is marked iff a
   reported occurrence of some term, in the lower-cased key, covers its position.
   */
  method RenderKey(text: string, lowered: string, terms: seq<string>) returns (parts: seq<Part>)
    requires NoEmptyTerm(terms)
    ensures Flatten(parts) == text && |Marks(parts)| == |text|
    ensures forall x :: 0 <= x < |text| ==> (Marks(parts)[x] <==> TermCovers(lowered, terms, x))
  {
    hide Values, Merged, Covers, TermCovers, Flatten, Marks, AllRanges;
    var ranges := BuildHighlights(lowered, terms);
    var values := Values(ranges);
    ghost var built := AllRanges(lowered, terms);
    MergedCover(built);
    AllRangesCover(lowered, terms, 0);
    parts := Highlighted(text, values);
    assert text[..|text|] == text;
    forall x | 0 <= x < |text|
      ensures Marks(parts)[x] <==> TermCovers(lowered, terms, x)
    {
      AllRangesCover(lowered, terms, x);
    }
  }
}
