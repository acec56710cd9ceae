/**
 Best-effort scan of a raw block for DAG-CBOR links: tag 42 and a byte string (RFC 8949,
 sections 3.1 and 3.4) that holds a zero byte and the bytes of a CIDv1.
 */
module CidLinks {
  import opened Prelude
  import Base32

  // ----- the scanner

  /** An out-of-range read, used as a number by the shift operators, is zero. */
  function Shifted(b: seq<byte>, i: nat): byte { if i < |b| then b[i] else 0 }

  function Signed32(n: nat): int { if n < 0x8000_0000 then n else n - 0x1_0000_0000 }

  function Word2(x: byte, y: byte): nat { 256 * x + y }

  function Word4(x0: byte, x1: byte, x2: byte, x3: byte): nat {
    0x100_0000 * x0 + 0x1_0000 * x1 + 256 * x2 + x3
  }

  /**
   Length of a byte string whose header starts at `i`, and the size of that header. The length
   itself is absent when the one-byte form is cut off by the end of the buffer.
   */
  datatype Header = Header(len: Option<int>, size: nat)

  function ReadByteStringLen(b: seq<byte>, i: nat): Option<Header> {
    var ib := Shifted(b, i);
    if ib / 32 != 2 then None
    else
      var low := ib % 32;
      if low < 24 then Some(Header(Some(low), 1))
      else if low == 24 then Some(Header(if i + 1 < |b| then Some(b[i + 1]) else None, 2))
      else if low == 25 then Some(Header(Some(Word2(Shifted(b, i + 1), Shifted(b, i + 2))), 3))
      else if low == 26 then
        var n := Word4(Shifted(b, i + 1), Shifted(b, i + 2), Shifted(b, i + 3), Shifted(b, i + 4));
        Some(Header(Some(Signed32(n)), 5))
      else None
  }

  /** The CID that the scanner takes from a tag at `i`, after its chain of checks. */
  function CidAt(b: seq<byte>, i: nat): Option<seq<byte>>
    requires i + 1 < |b|
  {
    if b[i] != 0xd8 || b[i + 1] != 0x2a then None
    else
      match ReadByteStringLen(b, i + 2)
      case None => None
      case Some(Header(None, _)) => None
      case Some(Header(Some(len), size)) =>
        var start := i + 2 + size;
        if len < 2 || start + len > |b| then None
        else if b[start] != 0x00 then None
        else
          var cid := b[start + 1..start + len];
          if cid[0] != 0x01 then None else Some(cid)
  }

  function Name(cid: seq<byte>): string { "b" + Base32.Encode(cid) }

  // ----- what a link looks like, independently of the scanner

  /** The four header forms of a byte string shorter than 2^31 bytes. */
  datatype Width = Immediate | One | Two | Four

  predicate Fits(w: Width, n: nat) {
    match w
    case Immediate => n < 24
    case One => n < 0x100
    case Two => n < 0x1_0000
    case Four => n < 0x8000_0000
  }

  function BigEndian2(n: nat): seq<byte>
    requires n < 0x1_0000
  {
    [n / 256, n % 256]
  }

  function BigEndian4(n: nat): seq<byte>
    requires n < 0x1_0000_0000
  {
    [n / 0x100_0000, n / 0x1_0000 % 256, n / 256 % 256, n % 256]
  }

  /** Header of a byte string of `n` bytes (major type 2). */
  function StringHeader(w: Width, n: nat): seq<byte>
    requires Fits(w, n)
  {
    match w
    case Immediate => [0x40 + n]
    case One => [0x58, n]
    case Two => [0x59] + BigEndian2(n)
    case Four => [0x5a] + BigEndian4(n)
  }

  /** A CIDv1, short enough for a block. */
  predicate IsCidV1(cid: seq<byte>) { 1 <= |cid| < 0x7fff_ffff && cid[0] == 0x01 }

  function LinkBytes(w: Width, cid: seq<byte>): seq<byte>
    requires Fits(w, |cid| + 1)
  {
    [0xd8, 0x2a] + StringHeader(w, |cid| + 1) + [0x00] + cid
  }

  /** A link to `cid`, in one of the header forms, stands in the buffer at `i`. */
  ghost predicate LinkStandsAt(b: seq<byte>, i: nat, cid: seq<byte>) {
    IsCidV1(cid) && exists w :: Fits(w, |cid| + 1) && At(b, i, LinkBytes(w, cid))
  }

  // ----- the scanner finds exactly the links that stand in the buffer

  lemma Parts(b: seq<byte>, i: nat, w: Width, cid: seq<byte>)
    requires Fits(w, |cid| + 1)
    ensures At(b, i, LinkBytes(w, cid)) <==>
            && At(b, i, [0xd8, 0x2a])
            && At(b, i + 2, StringHeader(w, |cid| + 1))
            && At(b, i + 2 + |StringHeader(w, |cid| + 1)|, [0x00])
            && At(b, i + 3 + |StringHeader(w, |cid| + 1)|, cid)
  {
    var h := StringHeader(w, |cid| + 1);
    AtConcat(b, i, [0xd8, 0x2a] + h + [0x00], cid);
    AtConcat(b, i, [0xd8, 0x2a] + h, [0x00]);
    AtConcat(b, i, [0xd8, 0x2a], h);
  }

  lemma At1(b: seq<byte>, p: nat, x: byte)
    ensures At(b, p, [x]) <==> p < |b| && b[p] == x
  {
  }

  lemma At2(b: seq<byte>, p: nat, x: byte, y: byte)
    ensures At(b, p, [x, y]) <==> p + 1 < |b| && b[p] == x && b[p + 1] == y
  {
    AtConcat(b, p, [x], [y]);
    assert [x] + [y] == [x, y];
  }

  lemma At3(b: seq<byte>, p: nat, x: byte, y: byte, z: byte)
    ensures At(b, p, [x, y, z]) <==> p + 2 < |b| && b[p] == x && b[p + 1] == y && b[p + 2] == z
  {
    AtConcat(b, p, [x], [y, z]);
    At2(b, p + 1, y, z);
    assert [x] + [y, z] == [x, y, z];
  }

  lemma At5(b: seq<byte>, p: nat, x0: byte, x1: byte, x2: byte, x3: byte, x4: byte)
    ensures At(b, p, [x0, x1, x2, x3, x4]) <==>
            p + 4 < |b| && b[p] == x0 && b[p + 1] == x1 && b[p + 2] == x2 && b[p + 3] == x3 && b[p + 4] == x4
  {
    AtConcat(b, p, [x0, x1], [x2, x3, x4]);
    At2(b, p, x0, x1);
    At3(b, p + 2, x2, x3, x4);
    assert [x0, x1] + [x2, x3, x4] == [x0, x1, x2, x3, x4];
  }

  /** Reading back a header that stands in the buffer. */
  lemma ReadWritten(b: seq<byte>, p: nat, w: Width, n: nat)
    requires Fits(w, n) && At(b, p, StringHeader(w, n))
    ensures ReadByteStringLen(b, p) == Some(Header(Some(n), |StringHeader(w, n)|))
  {
    match w
    case Immediate => At1(b, p, 0x40 + n);
    case One => At2(b, p, 0x58, n);
    case Two => ReadTwo(b, p, n);
    case Four => ReadFour(b, p, n);
  }

  lemma ReadTwo(b: seq<byte>, p: nat, n: nat)
    requires n < 0x1_0000 && At(b, p, [0x59] + BigEndian2(n))
    ensures ReadByteStringLen(b, p) == Some(Header(Some(n), 3))
  {
    assert [0x59] + BigEndian2(n) == [0x59, n / 256, n % 256];
    At3(b, p, 0x59, n / 256, n % 256);
  }

  lemma ReadFour(b: seq<byte>, p: nat, n: nat)
    requires n < 0x8000_0000 && At(b, p, [0x5a] + BigEndian4(n))
    ensures ReadByteStringLen(b, p) == Some(Header(Some(n), 5))
  {
    var x0, x1, x2, x3 := n / 0x100_0000, n / 0x1_0000 % 256, n / 256 % 256, n % 256;
    assert [0x5a] + BigEndian4(n) == [0x5a, x0, x1, x2, x3];
    At5(b, p, 0x5a, x0, x1, x2, x3);
    WordOfDigits(n);
  }

  lemma WordOfDigits(n: nat)
    requires n < 0x1_0000_0000
    ensures Word4(n / 0x100_0000, n / 0x1_0000 % 256, n / 256 % 256, n % 256) == n
  {
    NestedDivision(n);
  }

  lemma Digits2(x: byte, y: byte)
    ensures Word2(x, y) < 0x1_0000 && BigEndian2(Word2(x, y)) == [x, y]
  {
  }

  lemma DivStep(q: nat, r: byte)
    ensures (256 * q + r) / 256 == q && (256 * q + r) % 256 == r
  {
  }

  lemma Digits4(x0: byte, x1: byte, x2: byte, x3: byte)
    ensures var n := Word4(x0, x1, x2, x3);
            n < 0x1_0000_0000 && BigEndian4(n) == [x0, x1, x2, x3]
  {
    var n := Word4(x0, x1, x2, x3);
    var a: nat, b: nat := 256 * x0 + x1, 256 * (256 * x0 + x1) + x2;
    DivStep(x0, x1);
    DivStep(a, x2);
    DivStep(b, x3);
    assert n == 256 * b + x3;
    NestedDivision(n);
  }

  lemma NestedDivision(n: nat)
    ensures n / 256 / 256 == n / 0x1_0000 && n / 256 / 256 / 256 == n / 0x100_0000
  {
  }

  /** A header that is read whole and is not negative is one of the four forms. */
  lemma WrittenAsRead(b: seq<byte>, p: nat) returns (w: Width)
    requires ReadByteStringLen(b, p).Some? && ReadByteStringLen(b, p).value.len.Some?
    requires var h := ReadByteStringLen(b, p).value; h.len.value >= 0 && p + h.size <= |b|
    ensures var h := ReadByteStringLen(b, p).value;
            && Fits(w, h.len.value) && |StringHeader(w, h.len.value)| == h.size
            && At(b, p, StringHeader(w, h.len.value))
  {
    var n := ReadByteStringLen(b, p).value.len.value;
    var low := b[p] % 32;
    if low < 24 {
      w := Immediate;
      At1(b, p, 0x40 + n);
    } else if low == 24 {
      w := One;
      At2(b, p, 0x58, n);
    } else if low == 25 {
      w := Two;
      TwoForm(b, p);
    } else {
      w := Four;
      FourForm(b, p);
    }
  }

  lemma TwoForm(b: seq<byte>, p: nat)
    requires p + 2 < |b| && b[p] == 0x59
    ensures var n := Word2(b[p + 1], b[p + 2]); Fits(Two, n) && At(b, p, StringHeader(Two, n))
  {
    Digits2(b[p + 1], b[p + 2]);
    At3(b, p, 0x59, b[p + 1], b[p + 2]);
    assert [0x59] + [b[p + 1], b[p + 2]] == [0x59, b[p + 1], b[p + 2]];
  }

  lemma FourForm(b: seq<byte>, p: nat)
    requires p + 4 < |b| && b[p] == 0x5a
    ensures var n := Word4(b[p + 1], b[p + 2], b[p + 3], b[p + 4]);
            Fits(Four, n) ==> At(b, p, StringHeader(Four, n))
  {
    Digits4(b[p + 1], b[p + 2], b[p + 3], b[p + 4]);
    At5(b, p, 0x5a, b[p + 1], b[p + 2], b[p + 3], b[p + 4]);
    assert [0x5a] + [b[p + 1], b[p + 2], b[p + 3], b[p + 4]] == [0x5a, b[p + 1], b[p + 2], b[p + 3], b[p + 4]];
  }

  /** The chain of checks, for a header of `size` bytes that announces `len` bytes. */
  lemma ChecksPassed(b: seq<byte>, i: nat, len: nat, size: nat, cid: seq<byte>)
    requires i + 1 < |b| && b[i] == 0xd8 && b[i + 1] == 0x2a
    requires ReadByteStringLen(b, i + 2) == Some(Header(Some(len), size))
    requires len == |cid| + 1 && cid != [] && cid[0] == 0x01
    requires i + 2 + size < |b| && b[i + 2 + size] == 0x00
    requires At(b, i + 3 + size, cid)
    ensures CidAt(b, i) == Some(cid)
  {
    var start := i + 2 + size;
    assert b[start + 1..start + len] == cid;
  }

  lemma CidAtFinds(b: seq<byte>, i: nat, cid: seq<byte>)
    requires LinkStandsAt(b, i, cid)
    ensures i + 1 < |b| && CidAt(b, i) == Some(cid)
  {
    var w :| Fits(w, |cid| + 1) && At(b, i, LinkBytes(w, cid));
    FormFound(b, i, w, cid);
  }

  lemma FormFound(b: seq<byte>, i: nat, w: Width, cid: seq<byte>)
    requires IsCidV1(cid) && Fits(w, |cid| + 1) && At(b, i, LinkBytes(w, cid))
    ensures i + 1 < |b| && CidAt(b, i) == Some(cid)
  {
    hide StringHeader, ReadByteStringLen, LinkBytes, At, CidAt;
    var size := |StringHeader(w, |cid| + 1)|;
    Parts(b, i, w, cid);
    At2(b, i, 0xd8, 0x2a);
    At1(b, i + 2 + size, 0x00);
    ReadWritten(b, i + 2, w, |cid| + 1);
    ChecksPassed(b, i, |cid| + 1, size, cid);
  }

  /** What the chain of checks has established when it lets a CID through. */
  lemma ChecksEstablish(b: seq<byte>, i: nat)
    requires i + 1 < |b| && CidAt(b, i).Some?
    ensures var cid := CidAt(b, i).value;
            var r := ReadByteStringLen(b, i + 2);
            && At(b, i, [0xd8, 0x2a]) && r.Some? && r.value.len == Some(|cid| + 1) && cid != [] && cid[0] == 0x01
            && At(b, i + 2 + r.value.size, [0x00]) && At(b, i + 3 + r.value.size, cid)
  {
    hide ReadByteStringLen;
    At2(b, i, 0xd8, 0x2a);
    At1(b, i + 2 + ReadByteStringLen(b, i + 2).value.size, 0x00);
  }

  lemma CidAtSound(b: seq<byte>, i: nat)
    requires i + 1 < |b| && CidAt(b, i).Some?
    ensures LinkStandsAt(b, i, CidAt(b, i).value)
  {
    hide CidAt, ReadByteStringLen, StringHeader, LinkBytes, At;
    ChecksEstablish(b, i);
    var cid := CidAt(b, i).value;
    EndsInside(b, i);
    var w := WrittenAsRead(b, i + 2);
    LengthIsSmall(w, |cid| + 1);
    Parts(b, i, w, cid);
  }

  lemma EndsInside(b: seq<byte>, i: nat)
    requires i + 1 < |b| && CidAt(b, i).Some?
    ensures i + 2 + ReadByteStringLen(b, i + 2).value.size <= |b|
  {
    hide ReadByteStringLen;
  }

  lemma LengthIsSmall(w: Width, n: nat)
    requires Fits(w, n)
    ensures n < 0x8000_0000
  {
  }

  /** The strings that a complete scan has to report. */
  ghost predicate Reported(b: seq<byte>, s: string) {
    exists i: nat, cid :: LinkStandsAt(b, i, cid) && s == Name(cid)
  }

  ghost predicate ReportedBefore(b: seq<byte>, n: nat, s: string) {
    exists i: nat, cid :: i < n && LinkStandsAt(b, i, cid) && s == Name(cid)
  }

  lemma ReportedNext(b: seq<byte>, n: nat, s: string)
    ensures ReportedBefore(b, n + 1, s) <==>
            ReportedBefore(b, n, s) || (n + 1 < |b| && CidAt(b, n).Some? && s == Name(CidAt(b, n).value))
  {
    if ReportedBefore(b, n + 1, s) && !ReportedBefore(b, n, s) {
      var i: nat, cid :| i < n + 1 && LinkStandsAt(b, i, cid) && s == Name(cid);
      CidAtFinds(b, i, cid);
    }
    if n + 1 < |b| && CidAt(b, n).Some? {
      CidAtSound(b, n);
    }
  }

  lemma ReportedAll(b: seq<byte>, s: string)
    ensures Reported(b, s) <==> ReportedBefore(b, |b|, s)
  {
    if Reported(b, s) {
      var i: nat, cid :| LinkStandsAt(b, i, cid) && s == Name(cid);
      CidAtFinds(b, i, cid);
    }
  }

  /** Some link with the first name stands before every link with the second. */
  ghost predicate Earlier(b: seq<byte>, s: string, t: string) {
    exists i: nat, cid :: LinkStandsAt(b, i, cid) && s == Name(cid) && !ReportedBefore(b, i + 1, t)
  }

  lemma EarlierThan(b: seq<byte>, n: nat, s: string, t: string)
    requires ReportedBefore(b, n, s) && !ReportedBefore(b, n, t)
    ensures Earlier(b, s, t)
  {
    hide LinkStandsAt, Name;
    var i: nat, cid :| i < n && LinkStandsAt(b, i, cid) && s == Name(cid);
    BeforeLater(b, i + 1, n, t);
  }

  lemma BeforeLater(b: seq<byte>, m: nat, n: nat, t: string)
    requires m <= n
    ensures ReportedBefore(b, m, t) ==> ReportedBefore(b, n, t)
  {
  }

  /**
   The scan reports the names of exactly the links that stand in the block, each name once, in
   the order of the first offset at which their link stands.
   */
  method ScanCidLinks(bytes: seq<byte>) returns (found: seq<string>)
    ensures Distinct(found)
    ensures forall s :: s in found <==> Reported(bytes, s)
    ensures forall k, l :: 0 <= k < l < |found| ==> Earlier(bytes, found[k], found[l])
  {
    hide LinkStandsAt, Reported, ReportedBefore, Earlier;
    NothingBefore(bytes);
    found := [];
    for i := 0 to |bytes|
      invariant Distinct(found)
      invariant forall s :: s in found <==> ReportedBefore(bytes, i, s)
      invariant forall k, l :: 0 <= k < l < |found| ==> Earlier(bytes, found[k], found[l])
    {
      forall s {
        ReportedNext(bytes, i, s);
      }
      if i + 1 < |bytes| && CidAt(bytes, i).Some? {
        var text := Base32.EncodeStream(CidAt(bytes, i).value);
        if "b" + text !in found {
          forall k | 0 <= k < |found|
            ensures Earlier(bytes, found[k], "b" + text)
          {
            EarlierThan(bytes, i, found[k], "b" + text);
          }
          found := found + ["b" + text];
        }
      }
    }
    forall s {
      ReportedAll(bytes, s);
    }
  }

  lemma NothingBefore(b: seq<byte>)
    ensures forall s :: !ReportedBefore(b, 0, s)
  {
  }

  /** Embedding a block in a larger one loses nothing. */
  lemma ReportedMonotone(a: seq<byte>, x: seq<byte>, b: seq<byte>, s: string)
    requires Reported(x, s)
    ensures Reported(a + x + b, s)
  {
    var i: nat, cid :| LinkStandsAt(x, i, cid) && s == Name(cid);
    var w :| Fits(w, |cid| + 1) && At(x, i, LinkBytes(w, cid));
    AtEmbed(a, x, b, i, LinkBytes(w, cid));
    assert LinkStandsAt(a + x + b, |a| + i, cid);
  }

  /** Links to different CIDs are reported under different names. */
  lemma NamesIdentifyCids(x: seq<byte>, y: seq<byte>)
    ensures Name(x) == Name(y) <==> x == y
  {
    Base32.EncodeInjective(x, y);
    assert Name(x)[1..] == Base32.Encode(x) && Name(y)[1..] == Base32.Encode(y);
  }

  // ----- DAG-CBOR trees

  datatype Cbor =
    | UInt(n: nat)
    | NegInt(n: nat)
    | Bytes(content: seq<byte>)
    | Text(utf8: seq<byte>)
    | List(items: Items)
    | Dict(entries: Entries)
    | Link(cid: seq<byte>)
    | Bool(b: bool)
    | Null
    | Double(bits: seq<byte>)

  datatype Items = NoItem | Item(head: Cbor, tail: Items)

  datatype Entries = NoEntry | Entry(key: seq<byte>, value: Cbor, rest: Entries)

  function CountItems(l: Items): nat { if l.NoItem? then 0 else 1 + CountItems(l.tail) }

  function CountEntries(l: Entries): nat { if l.NoEntry? then 0 else 1 + CountEntries(l.rest) }

  /** Minimal header of a major type and an argument below 2^64. */
  function Head(major: nat, n: nat): seq<byte>
    requires major < 8
  {
    if n < 24 then [32 * major + n]
    else if n < 0x100 then [32 * major + 24, n]
    else if n < 0x1_0000 then [32 * major + 25] + BigEndian2(n)
    else if n < 0x1_0000_0000 then [32 * major + 26] + BigEndian4(n)
    else [32 * major + 27] + BigEndian4(n / 0x1_0000_0000 % 0x1_0000_0000) + BigEndian4(n % 0x1_0000_0000)
  }

  function Encode(v: Cbor): seq<byte> {
    match v
    case UInt(n) => Head(0, n)
    case NegInt(n) => Head(1, n)
    case Bytes(content) => Head(2, |content|) + content
    case Text(utf8) => Head(3, |utf8|) + utf8
    case List(items) => Head(4, CountItems(items)) + EncodeItems(items)
    case Dict(entries) => Head(5, CountEntries(entries)) + EncodeEntries(entries)
    case Link(cid) => Head(6, 42) + (Head(2, |cid| + 1) + ([0x00] + cid))
    case Bool(b) => [if b then 0xf5 else 0xf4]
    case Null => [0xf6]
    case Double(bits) => [0xfb] + bits
  }

  function EncodeItems(l: Items): seq<byte> {
    match l
    case NoItem => []
    case Item(head, tail) => Encode(head) + EncodeItems(tail)
  }

  function EncodeEntries(l: Entries): seq<byte> {
    match l
    case NoEntry => []
    case Entry(key, value, rest) => Head(3, |key|) + key + Encode(value) + EncodeEntries(rest)
  }

  /** The CIDs that a tree links to, at any depth. */
  function Links(v: Cbor): set<seq<byte>> {
    match v
    case Link(cid) => {cid}
    case List(items) => LinksOfItems(items)
    case Dict(entries) => LinksOfEntries(entries)
    case _ => {}
  }

  function LinksOfItems(l: Items): set<seq<byte>> {
    match l
    case NoItem => {}
    case Item(head, tail) => Links(head) + LinksOfItems(tail)
  }

  function LinksOfEntries(l: Entries): set<seq<byte>> {
    match l
    case NoEntry => {}
    case Entry(_, value, rest) => Links(value) + LinksOfEntries(rest)
  }

  ghost predicate HoldsLink(b: seq<byte>, cid: seq<byte>) {
    exists i: nat :: LinkStandsAt(b, i, cid)
  }

  lemma StandsSomewhere(b: seq<byte>, i: nat, cid: seq<byte>)
    requires LinkStandsAt(b, i, cid)
    ensures HoldsLink(b, cid)
  {
  }

  lemma EmbedStanding(a: seq<byte>, x: seq<byte>, b: seq<byte>, cid: seq<byte>)
    requires HoldsLink(x, cid)
    ensures HoldsLink(a + x + b, cid)
  {
    var i: nat :| LinkStandsAt(x, i, cid);
    var w :| Fits(w, |cid| + 1) && At(x, i, LinkBytes(w, cid));
    AtEmbed(a, x, b, i, LinkBytes(w, cid));
    assert LinkStandsAt(a + x + b, |a| + i, cid);
  }

  lemma EncodedLinkStands(cid: seq<byte>)
    requires IsCidV1(cid)
    ensures LinkStandsAt(Encode(Link(cid)), 0, cid)
  {
    var n := |cid| + 1;
    var w := if n < 24 then Immediate else if n < 0x100 then One else if n < 0x1_0000 then Two else Four;
    assert Head(6, 42) == [0xd8, 0x2a];
    assert Head(2, n) == StringHeader(w, n);
    var e := Encode(Link(cid));
    assert e == LinkBytes(w, cid);
    assert e[0..|e|] == e;
    assert At(e, 0, LinkBytes(w, cid));
  }

  lemma {:induction false} EveryLinkStands(v: Cbor, cid: seq<byte>)
    requires cid in Links(v) && IsCidV1(cid)
    ensures HoldsLink(Encode(v), cid)
  {
    hide HoldsLink, IsCidV1, Head, EncodeItems, EncodeEntries;
    match v
    case Link(_) =>
      EncodedLinkStands(cid);
      StandsSomewhere(Encode(v), 0, cid);
    case List(items) =>
      EveryItemLinkStands(items, cid);
      EmbedStanding(Head(4, CountItems(items)), EncodeItems(items), [], cid);
      assert Encode(v) == Head(4, CountItems(items)) + EncodeItems(items) + [];
    case Dict(entries) =>
      EveryEntryLinkStands(entries, cid);
      EmbedStanding(Head(5, CountEntries(entries)), EncodeEntries(entries), [], cid);
      assert Encode(v) == Head(5, CountEntries(entries)) + EncodeEntries(entries) + [];
  }

  lemma {:induction false} EveryItemLinkStands(l: Items, cid: seq<byte>)
    requires cid in LinksOfItems(l) && IsCidV1(cid)
    ensures HoldsLink(EncodeItems(l), cid)
  {
    hide HoldsLink, Encode, Links, IsCidV1;
    var Item(head, tail) := l;
    if cid in Links(head) {
      EveryLinkStands(head, cid);
      EmbedStanding([], Encode(head), EncodeItems(tail), cid);
      assert EncodeItems(l) == [] + Encode(head) + EncodeItems(tail);
    } else {
      EveryItemLinkStands(tail, cid);
      EmbedStanding(Encode(head), EncodeItems(tail), [], cid);
      assert EncodeItems(l) == Encode(head) + EncodeItems(tail) + [];
    }
  }

  lemma {:induction false} EveryEntryLinkStands(l: Entries, cid: seq<byte>)
    requires cid in LinksOfEntries(l) && IsCidV1(cid)
    ensures HoldsLink(EncodeEntries(l), cid)
  {
    hide HoldsLink, Encode, Links, IsCidV1, Head;
    var Entry(key, value, rest) := l;
    var before := Head(3, |key|) + key;
    if cid in Links(value) {
      EveryLinkStands(value, cid);
      EmbedStanding(before, Encode(value), EncodeEntries(rest), cid);
      assert EncodeEntries(l) == before + Encode(value) + EncodeEntries(rest);
    } else {
      EveryEntryLinkStands(rest, cid);
      EmbedStanding(before + Encode(value), EncodeEntries(rest), [], cid);
      assert EncodeEntries(l) == before + Encode(value) + EncodeEntries(rest) + [];
    }
  }

  /** Every CIDv1 that a tree links to is reported, wherever the tree's encoding stands. */
  lemma LinksAreReported(v: Cbor, a: seq<byte>, b: seq<byte>, cid: seq<byte>)
    requires cid in Links(v) && IsCidV1(cid)
    ensures Reported(a + Encode(v) + b, Name(cid))
  {
    EveryLinkStands(v, cid);
    EmbedStanding(a, Encode(v), b, cid);
    var i: nat :| LinkStandsAt(a + Encode(v) + b, i, cid);
  }

  /**
   The converse fails: a byte string that happens to hold the encoding of a tree has no links,
   yet all the links of that tree are reported.
   */
  lemma QuotedLinksAreReportedToo(v: Cbor, cid: seq<byte>)
    requires cid in Links(v) && IsCidV1(cid)
    ensures Links(Bytes(Encode(v))) == {}
    ensures Reported(Encode(Bytes(Encode(v))), Name(cid))
  {
    var e := Encode(v);
    LinksAreReported(v, Head(2, |e|), [], cid);
    assert Encode(Bytes(e)) == Head(2, |e|) + e + [];
  }
}
