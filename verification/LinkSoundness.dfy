/**
 When the link scan of an encoded DAG-CBOR tree reports the links of the tree and nothing else:
 the two bytes of the link tag stand in the encoding only where a link of the tree starts. The
 condition is read off the tree, node by node.
 */
module LinkSoundness {
  import opened Prelude
  import opened CidLinks

  predicate TagAt(x: seq<byte>, i: nat) { i + 1 < |x| && x[i] == 0xd8 && x[i + 1] == 0x2a }

  /** Where the tag of a link, 0xd8 0x2a, stands in a buffer. */
  function Tags(x: seq<byte>): set<nat> { set i: nat | i < |x| && TagAt(x, i) }

  function Shift(s: set<nat>, n: nat): set<nat> { set i | i in s :: i + n }

  /** The tag straddles the border of two parts. */
  predicate Straddles(x: seq<byte>, y: seq<byte>) {
    x != [] && y != [] && x[|x| - 1] == 0xd8 && y[0] == 0x2a
  }

  lemma TagsOfConcat(x: seq<byte>, y: seq<byte>, i: nat)
    ensures i in Tags(x + y) <==>
            i in Tags(x) || (i >= |x| && i - |x| in Tags(y)) || (i + 1 == |x| && Straddles(x, y))
  {
    var z := x + y;
    if i + 1 < |z| {
      assert i < |x| ==> z[i] == x[i];
      assert i + 1 < |x| ==> z[i + 1] == x[i + 1];
      assert i >= |x| ==> z[i] == y[i - |x|];
      assert i + 1 >= |x| ==> z[i + 1] == y[i + 1 - |x|];
    }
  }

  lemma InShift(s: set<nat>, n: nat, i: nat)
    ensures i in Shift(s, n) <==> i >= n && i - n in s
  {
    if i >= n && i - n in s {
      assert (i - n) + n in Shift(s, n);
    }
  }

  /**
   The tags of a concatenation are those expected of its parts exactly when this holds of each
   part and no tag straddles the border.
   */
  lemma ConcatTags(x: seq<byte>, y: seq<byte>, p: set<nat>, q: set<nat>)
    requires p <= Tags(x) && q <= Tags(y)
    ensures p + Shift(q, |x|) <= Tags(x + y)
    ensures Tags(x + y) == p + Shift(q, |x|) <==> Tags(x) == p && Tags(y) == q && !Straddles(x, y)
  {
    var all := p + Shift(q, |x|);
    forall i: nat
      ensures i in all <==> i in p || (i >= |x| && i - |x| in q)
      ensures i in Tags(x + y) <==>
              i in Tags(x) || (i >= |x| && i - |x| in Tags(y)) || (i + 1 == |x| && Straddles(x, y))
    {
      InShift(q, |x|, i);
      TagsOfConcat(x, y, i);
    }
    hide Tags, Shift, Straddles;
    TagsInside(x);
    if Tags(x + y) == all {
      forall i | i in Tags(x)
        ensures i in p
      {
        assert i in all;
      }
      forall i | i in Tags(y)
        ensures i in q
      {
        assert i + |x| in all;
      }
      NoTagOnBorder(x, y, p, q);
    }
  }

  lemma TagsInside(x: seq<byte>)
    ensures forall i :: i in Tags(x) ==> i + 1 < |x|
  {
  }

  lemma NoTagOnBorder(x: seq<byte>, y: seq<byte>, p: set<nat>, q: set<nat>)
    requires p <= Tags(x) && Tags(x + y) == p + Shift(q, |x|)
    ensures !Straddles(x, y)
  {
    if x != [] {
      TagsOfConcat(x, y, |x| - 1);
      BorderNotExpected(x, p, q);
    }
  }

  lemma BorderNotExpected(x: seq<byte>, p: set<nat>, q: set<nat>)
    requires p <= Tags(x) && x != []
    ensures |x| - 1 !in p + Shift(q, |x|)
  {
    InShift(q, |x|, |x| - 1);
  }

  // ----- the links of a tree in its encoding

  /** The offsets at which the links of a tree start in its encoding. */
  function LinkOffsets(v: Cbor): set<nat> {
    match v
    case Link(_) => {0}
    case List(items) => Shift(ItemOffsets(items), |Head(4, CountItems(items))|)
    case Dict(entries) => Shift(EntryOffsets(entries), |Head(5, CountEntries(entries))|)
    case _ => {}
  }

  function ItemOffsets(l: Items): set<nat> {
    match l
    case NoItem => {}
    case Item(head, tail) => LinkOffsets(head) + Shift(ItemOffsets(tail), |Encode(head)|)
  }

  function EntryOffsets(l: Entries): set<nat> {
    match l
    case NoEntry => {}
    case Entry(key, value, rest) =>
      Shift(LinkOffsets(value) + Shift(EntryOffsets(rest), |Encode(value)|), |Head(3, |key|) + key|)
  }

  predicate Plain(x: seq<byte>) { Tags(x) == {} }

  /** No tag in the two parts of a leaf or on their border. */
  predicate PlainPair(x: seq<byte>, y: seq<byte>) { Plain(x) && Plain(y) && !Straddles(x, y) }

  /** The tree has no tag outside its links: not in numbers, lengths, strings or CIDs, nor across borders. */
  predicate Quiet(v: Cbor) {
    match v
    case UInt(n) => Plain(Head(0, n))
    case NegInt(n) => Plain(Head(1, n))
    case Bytes(content) => PlainPair(Head(2, |content|), content)
    case Text(utf8) => PlainPair(Head(3, |utf8|), utf8)
    case List(items) =>
      var head := Head(4, CountItems(items));
      Plain(head) && QuietItems(items) && !Straddles(head, EncodeItems(items))
    case Dict(entries) =>
      var head := Head(5, CountEntries(entries));
      Plain(head) && QuietEntries(entries) && !Straddles(head, EncodeEntries(entries))
    case Link(cid) => Plain(Head(2, |cid| + 1)) && Plain(cid)
    case Bool(_) => true
    case Null => true
    case Double(bits) => Plain(bits)
  }

  predicate QuietItems(l: Items) {
    match l
    case NoItem => true
    case Item(head, tail) => Quiet(head) && QuietItems(tail) && !Straddles(Encode(head), EncodeItems(tail))
  }

  predicate QuietEntries(l: Entries) {
    match l
    case NoEntry => true
    case Entry(key, value, rest) =>
      && PlainPair(Head(3, |key|), key)
      && Quiet(value) && QuietEntries(rest) && !Straddles(Encode(value), EncodeEntries(rest))
      && !Straddles(Head(3, |key|) + key, Encode(value) + EncodeEntries(rest))
  }

  lemma NoShift(n: nat)
    ensures Shift({}, n) == {}
  {
  }

  lemma PairTags(x: seq<byte>, y: seq<byte>)
    ensures Plain(x + y) <==> PlainPair(x, y)
  {
    ConcatTags(x, y, {}, {});
    NoShift(|x|);
  }

  /** A link has the tag at its start, and otherwise only in its length or in the CID. */
  lemma LinkTags(cid: seq<byte>)
    ensures 0 in Tags(Encode(Link(cid)))
    ensures Tags(Encode(Link(cid))) == {0} <==> Plain(Head(2, |cid| + 1)) && Plain(cid)
  {
    hide Tags;
    var tag, h := Head(6, 42), Head(2, |cid| + 1);
    TagAlone();
    PairTags([0x00], cid);
    PairTags(h, [0x00] + cid);
    SingleIsPlain(0x00);
    ConcatTags(tag, h + ([0x00] + cid), {0}, {});
    NoShift(|tag|);
  }

  lemma TagAlone()
    ensures Head(6, 42) == [0xd8, 0x2a] && Tags(Head(6, 42)) == {0}
  {
  }

  lemma SingleIsPlain(b: byte)
    ensures Plain([b])
  {
  }

  /** Every link of a tree has its tag, and a tree is quiet exactly when there are no other tags. */
  lemma {:induction false} QuietIff(v: Cbor)
    ensures LinkOffsets(v) <= Tags(Encode(v))
    ensures Quiet(v) <==> Tags(Encode(v)) == LinkOffsets(v)
  {
    hide Tags, Shift, Straddles, Head, EncodeItems, EncodeEntries, ItemOffsets, EntryOffsets;
    match v
    case UInt(_) =>
    case NegInt(_) =>
    case Bytes(content) => PairTags(Head(2, |content|), content);
    case Text(utf8) => PairTags(Head(3, |utf8|), utf8);
    case List(items) =>
      QuietItemsIff(items);
      ConcatTags(Head(4, CountItems(items)), EncodeItems(items), {}, ItemOffsets(items));
    case Dict(entries) =>
      QuietEntriesIff(entries);
      ConcatTags(Head(5, CountEntries(entries)), EncodeEntries(entries), {}, EntryOffsets(entries));
    case Link(cid) => LinkTags(cid);
    case Bool(b) => SingleIsPlain(if b then 0xf5 else 0xf4);
    case Null => SingleIsPlain(0xf6);
    case Double(bits) => DoubleTags(bits);
  }

  lemma DoubleTags(bits: seq<byte>)
    ensures Plain([0xfb] + bits) <==> Plain(bits)
  {
    SingleIsPlain(0xfb);
    PairTags([0xfb], bits);
  }

  lemma {:induction false} QuietItemsIff(l: Items)
    ensures ItemOffsets(l) <= Tags(EncodeItems(l))
    ensures QuietItems(l) <==> Tags(EncodeItems(l)) == ItemOffsets(l)
  {
    match l
    case NoItem =>
    case Item(head, tail) =>
      hide Tags, Shift, Straddles, Encode, LinkOffsets, Quiet;
      QuietIff(head);
      QuietItemsIff(tail);
      ConcatTags(Encode(head), EncodeItems(tail), LinkOffsets(head), ItemOffsets(tail));
  }

  lemma {:induction false} QuietEntriesIff(l: Entries)
    ensures EntryOffsets(l) <= Tags(EncodeEntries(l))
    ensures QuietEntries(l) <==> Tags(EncodeEntries(l)) == EntryOffsets(l)
  {
    match l
    case NoEntry =>
    case Entry(key, value, rest) =>
      hide Tags, Shift, Straddles, Encode, LinkOffsets, Quiet, Head, PlainPair;
      var h, x, y := Head(3, |key|) + key, Encode(value), EncodeEntries(rest);
      QuietIff(value);
      QuietEntriesIff(rest);
      PairTags(Head(3, |key|), key);
      var q := LinkOffsets(value) + Shift(EntryOffsets(rest), |x|);
      ConcatTags(x, y, LinkOffsets(value), EntryOffsets(rest));
      ConcatTags(h, x + y, {}, q);
      assert EncodeEntries(l) == h + (x + y);
  }

  // ----- what stands where a link of the tree starts

  /** A link of the set stands in the buffer at this offset. */
  ghost predicate LinkFrom(b: seq<byte>, i: nat, cids: set<seq<byte>>) {
    exists cid :: cid in cids && At(b, i, Encode(Link(cid)))
  }

  lemma EmbedLink(a: seq<byte>, x: seq<byte>, b: seq<byte>, i: nat, cids: set<seq<byte>>, more: set<seq<byte>>)
    requires LinkFrom(x, i, cids) && cids <= more
    ensures LinkFrom(a + x + b, |a| + i, more)
  {
    hide Encode;
    var cid :| cid in cids && At(x, i, Encode(Link(cid)));
    AtEmbed(a, x, b, i, Encode(Link(cid)));
  }

  lemma {:induction false} OffsetsHoldLinks(v: Cbor, i: nat)
    requires i in LinkOffsets(v)
    ensures LinkFrom(Encode(v), i, Links(v))
  {
    hide LinkFrom, Head, EncodeItems, EncodeEntries, ItemOffsets, EntryOffsets, Shift;
    match v
    case Link(cid) => LinkAtStart(cid);
    case List(items) =>
      var h := Head(4, CountItems(items));
      InShift(ItemOffsets(items), |h|, i);
      ItemOffsetsHoldLinks(items, i - |h|);
      EmbedLink(h, EncodeItems(items), [], i - |h|, Links(v), Links(v));
      assert Encode(v) == h + EncodeItems(items) + [];
    case Dict(entries) =>
      var h := Head(5, CountEntries(entries));
      InShift(EntryOffsets(entries), |h|, i);
      EntryOffsetsHoldLinks(entries, i - |h|);
      EmbedLink(h, EncodeEntries(entries), [], i - |h|, Links(v), Links(v));
      assert Encode(v) == h + EncodeEntries(entries) + [];
  }

  lemma LinkAtStart(cid: seq<byte>)
    ensures LinkFrom(Encode(Link(cid)), 0, {cid})
  {
    var e := Encode(Link(cid));
    assert e[0..|e|] == e;
    assert At(e, 0, e);
  }

  lemma {:induction false} ItemOffsetsHoldLinks(l: Items, i: nat)
    requires i in ItemOffsets(l)
    ensures LinkFrom(EncodeItems(l), i, LinksOfItems(l))
  {
    hide LinkFrom, Encode, LinkOffsets, Links, Shift;
    var Item(head, tail) := l;
    var x, y := Encode(head), EncodeItems(tail);
    if i in LinkOffsets(head) {
      OffsetsHoldLinks(head, i);
      EmbedLink([], x, y, i, Links(head), LinksOfItems(l));
      assert EncodeItems(l) == [] + x + y;
    } else {
      InShift(ItemOffsets(tail), |x|, i);
      ItemOffsetsHoldLinks(tail, i - |x|);
      EmbedLink(x, y, [], i - |x|, LinksOfItems(tail), LinksOfItems(l));
      assert EncodeItems(l) == x + y + [];
    }
  }

  lemma {:induction false} EntryOffsetsHoldLinks(l: Entries, i: nat)
    requires i in EntryOffsets(l)
    ensures LinkFrom(EncodeEntries(l), i, LinksOfEntries(l))
  {
    hide LinkFrom, Encode, LinkOffsets, Links, Shift, Head;
    var Entry(key, value, rest) := l;
    var h, x, y := Head(3, |key|) + key, Encode(value), EncodeEntries(rest);
    InShift(LinkOffsets(value) + Shift(EntryOffsets(rest), |x|), |h|, i);
    var j := i - |h|;
    if j in LinkOffsets(value) {
      OffsetsHoldLinks(value, j);
      EmbedLink(h, x, y, j, Links(value), LinksOfEntries(l));
      assert EncodeEntries(l) == h + x + y;
    } else {
      InShift(EntryOffsets(rest), |x|, j);
      EntryOffsetsHoldLinks(rest, j - |x|);
      EmbedLink(h + x, y, [], j - |x|, LinksOfEntries(rest), LinksOfEntries(l));
      assert EncodeEntries(l) == (h + x) + y + [];
    }
  }

  // ----- what the scanner makes of a link of a tree

  /** Any minimal byte-string header: lengths from 2^31 come out negative, from 2^32 not at all. */
  lemma ReadMinimal(b: seq<byte>, p: nat, n: nat)
    requires At(b, p, Head(2, n))
    ensures ReadByteStringLen(b, p) ==
            if n < 0x1_0000_0000 then Some(Header(Some(Signed32(n)), |Head(2, n)|)) else None
  {
    if n < 0x8000_0000 {
      ReadWritten(b, p, MinimalWidth(n), n);
    } else if n < 0x1_0000_0000 {
      ReadNegative(b, p, n);
    } else {
      At1(b, p, 0x5b);
      AtConcat(b, p, [0x5b] + BigEndian4(n / 0x1_0000_0000 % 0x1_0000_0000), BigEndian4(n % 0x1_0000_0000));
      AtConcat(b, p, [0x5b], BigEndian4(n / 0x1_0000_0000 % 0x1_0000_0000));
    }
  }

  function MinimalWidth(n: nat): (w: Width)
    requires n < 0x8000_0000
    ensures Fits(w, n) && StringHeader(w, n) == Head(2, n)
  {
    if n < 24 then Immediate else if n < 0x100 then One else if n < 0x1_0000 then Two else Four
  }

  lemma ReadNegative(b: seq<byte>, p: nat, n: nat)
    requires 0x8000_0000 <= n < 0x1_0000_0000 && At(b, p, [0x5a] + BigEndian4(n))
    ensures ReadByteStringLen(b, p) == Some(Header(Some(n - 0x1_0000_0000), 5))
  {
    var x0, x1, x2, x3 := n / 0x100_0000, n / 0x1_0000 % 256, n / 256 % 256, n % 256;
    assert [0x5a] + BigEndian4(n) == [0x5a, x0, x1, x2, x3];
    At5(b, p, 0x5a, x0, x1, x2, x3);
    WordOfDigits(n);
  }

  /** Where a link of a tree starts, the scanner takes its CID, and only if that is a CIDv1. */
  lemma TreeLinkRead(b: seq<byte>, i: nat, cid: seq<byte>)
    requires At(b, i, Encode(Link(cid))) && i + 1 < |b| && CidAt(b, i).Some?
    ensures IsCidV1(cid) && CidAt(b, i) == Some(cid)
  {
    hide ReadByteStringLen, Head, At;
    var n := |cid| + 1;
    var h := Head(2, n);
    AtConcat(b, i, Head(6, 42), h + ([0x00] + cid));
    TagAlone();
    AtConcat(b, i + 2, h, [0x00] + cid);
    AtConcat(b, i + 2 + |h|, [0x00], cid);
    ReadMinimal(b, i + 2, n);
    CidThere(b, i + 3 + |h|, cid);
  }

  lemma CidThere(b: seq<byte>, p: nat, cid: seq<byte>)
    requires At(b, p, cid)
    ensures p + |cid| <= |b| && b[p..p + |cid|] == cid
  {
  }

  lemma StandingIsTagged(b: seq<byte>, i: nat, cid: seq<byte>)
    requires LinkStandsAt(b, i, cid)
    ensures i in Tags(b) && i + 1 < |b| && CidAt(b, i) == Some(cid)
  {
    CidAtFinds(b, i, cid);
  }

  /** The scan of the tree's encoding reports its CIDv1 links and nothing else. */
  ghost predicate ScannedExactly(v: Cbor) {
    forall s :: Reported(Encode(v), s) <==> Linked(v, s)
  }

  ghost predicate Linked(v: Cbor, s: string) {
    exists cid :: cid in Links(v) && IsCidV1(cid) && s == Name(cid)
  }

  /** Tag bytes that do not start a link of the tree do no harm: no CID follows, or one that is linked to anyway. */
  predicate StraysAreHarmless(v: Cbor) {
    forall i :: i in Tags(Encode(v)) - LinkOffsets(v) ==> HarmlessTag(v, i)
  }

  predicate HarmlessTag(v: Cbor, i: nat) {
    var b := Encode(v);
    i + 1 < |b| ==> CidAt(b, i).None? || CidAt(b, i).value in Links(v)
  }

  lemma StandingIsLinked(v: Cbor, i: nat, cid: seq<byte>)
    requires StraysAreHarmless(v) && LinkStandsAt(Encode(v), i, cid)
    ensures cid in Links(v)
  {
    hide LinkStandsAt, Encode, Tags, LinkOffsets, Links, CidAt;
    StandingIsTagged(Encode(v), i, cid);
    if i in LinkOffsets(v) {
      OffsetsHoldLinks(v, i);
      var cid' :| cid' in Links(v) && At(Encode(v), i, Encode(Link(cid')));
      TreeLinkRead(Encode(v), i, cid');
    } else {
      assert HarmlessTag(v, i);
    }
  }

  lemma ExactHasNoHarm(v: Cbor, i: nat)
    requires ScannedExactly(v)
    ensures HarmlessTag(v, i)
  {
    hide Encode, Links, CidAt, LinkStandsAt, Name;
    var b := Encode(v);
    if i + 1 < |b| && CidAt(b, i).Some? {
      var cid := CidAt(b, i).value;
      CidAtSound(b, i);
      assert Reported(b, Name(cid));
      assert Linked(v, Name(cid));
      var cid' :| cid' in Links(v) && IsCidV1(cid') && Name(cid) == Name(cid');
      NamesIdentifyCids(cid, cid');
    }
  }

  /** The scan is exact if and only if no stray tag bytes are followed by a CID that the tree does not link to. */
  lemma ScannedExactlyIff(v: Cbor)
    ensures ScannedExactly(v) <==> StraysAreHarmless(v)
  {
    hide Encode, Links, LinkStandsAt, IsCidV1, Name, HarmlessTag, Tags, LinkOffsets;
    if ScannedExactly(v) {
      forall i | i in Tags(Encode(v)) - LinkOffsets(v)
        ensures HarmlessTag(v, i)
      {
        ExactHasNoHarm(v, i);
      }
    }
    if StraysAreHarmless(v) {
      forall s
        ensures Reported(Encode(v), s) <==> Linked(v, s)
      {
        ReportedIsLinked(v, s);
        LinkedIsReported(v, s);
      }
    }
  }

  lemma ReportedIsLinked(v: Cbor, s: string)
    requires StraysAreHarmless(v)
    ensures Reported(Encode(v), s) ==> Linked(v, s)
  {
    hide Encode, Links, Name, StraysAreHarmless;
    if Reported(Encode(v), s) {
      var i: nat, cid :| LinkStandsAt(Encode(v), i, cid) && s == Name(cid);
      StandingIsLinked(v, i, cid);
    }
  }

  lemma LinkedIsReported(v: Cbor, s: string)
    ensures Linked(v, s) ==> Reported(Encode(v), s)
  {
    hide Encode, Links, IsCidV1, Name;
    if cid :| cid in Links(v) && IsCidV1(cid) && s == Name(cid) {
      LinksAreReported(v, [], [], cid);
      assert [] + Encode(v) + [] == Encode(v);
    }
  }

  /** In particular the scan of a quiet tree, which has no stray tag bytes, is exact. */
  lemma QuietTreesAreScannedExactly(v: Cbor)
    requires Quiet(v)
    ensures ScannedExactly(v)
  {
    hide Encode, Quiet, ScannedExactly, Tags, LinkOffsets, HarmlessTag;
    QuietIff(v);
    ScannedExactlyIff(v);
  }
}
