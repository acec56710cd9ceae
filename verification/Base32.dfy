/**
 Text form of CID bytes: the streaming base32 encoder with its 32-bit accumulator, against the
 bit-stream definition of RFC 4648 section 6 (lower-case alphabet, no padding), and a decoder.
 */
module Base32 {
  import opened Prelude

  const ALPHABET := "abcdefghijklmnopqrstuvwxyz234567"

  /** The character at an index of the alphabet. */
  function Letter(n: nat): char
    requires n < 32
  {
    if n < 26 then 'a' + n as char else '2' + (n - 26) as char
  }

  lemma LetterTable(n: nat)
    requires n < 32
    ensures ALPHABET[n] == Letter(n)
  {
  }

  /** Range of the accumulator's shift operators. */
  const TWO32: nat := 0x1_0000_0000

  type bit = x: int | 0 <= x < 2

  // ----- bit strings, most significant bit first

  function Num(bits: seq<bit>): nat {
    if bits == [] then 0 else 2 * Num(bits[..|bits| - 1]) + bits[|bits| - 1]
  }

  /** The `w` low bits of a number. */
  function Digits(n: nat, w: nat): (r: seq<bit>)
    ensures |r| == w
  {
    if w == 0 then [] else Digits(n / 2, w - 1) + [n % 2]
  }

  lemma {:induction false} NumBound(bits: seq<bit>)
    ensures Num(bits) < Pow2(|bits|)
  {
    if bits != [] {
      NumBound(bits[..|bits| - 1]);
    }
  }

  lemma {:induction false} DigitsNum(bits: seq<bit>)
    ensures Digits(Num(bits), |bits|) == bits
  {
    if bits != [] {
      var a, b := bits[..|bits| - 1], bits[|bits| - 1];
      DigitsNum(a);
      NumSnoc(a, b);
      Halves(Num(a), b);
      assert bits == a + [b];
      assert Digits(Num(bits), |bits|) == Digits(Num(a), |a|) + [b];
    }
  }

  lemma Halves(m: nat, b: bit)
    ensures (2 * m + b) / 2 == m && (2 * m + b) % 2 == b
  {
  }

  lemma HalfBound(n: nat, p: nat)
    requires n < 2 * p
    ensures n / 2 < p && n == 2 * (n / 2) + n % 2
  {
  }

  lemma {:induction false} NumDigits(n: nat, w: nat)
    requires n < Pow2(w)
    ensures Num(Digits(n, w)) == n
  {
    if w != 0 {
      var p := Pow2(w - 1);
      assert Pow2(w) == 2 * p;
      hide Num, Pow2;
      HalfBound(n, p);
      NumDigits(n / 2, w - 1);
      NumSnoc(Digits(n / 2, w - 1), n % 2);
    }
  }

  lemma NumSnoc(a: seq<bit>, b: bit)
    ensures Num(a + [b]) == 2 * Num(a) + b
  {
    assert (a + [b])[..|a|] == a;
  }

  lemma {:induction false} NumConcat(a: seq<bit>, b: seq<bit>)
    ensures Num(a + b) == Num(a) * Pow2(|b|) + Num(b)
    decreases |b|
  {
    if b == [] {
      assert a + b == a;
    } else {
      var b' := b[..|b| - 1];
      NumConcat(a, b');
      assert (a + b)[..|a + b| - 1] == a + b';
      assert Num(a) * Pow2(|b|) == 2 * (Num(a) * Pow2(|b'|));
    }
  }

  // ----- RFC 4648 section 6

  /** The bits of a byte string, in order. */
  function Bits(bytes: seq<byte>): seq<bit> {
    if bytes == [] then [] else Bits(bytes[..|bytes| - 1]) + Digits(bytes[|bytes| - 1], 8)
  }

  function Zeros(n: nat): (z: seq<bit>)
    ensures |z| == n
  {
    seq(n, _ => 0)
  }

  /** The character of a five-bit group. */
  function Symbol(group: seq<bit>): char
    requires |group| == 5
  {
    NumBound(group);
    assert Pow2(5) == 32;
    Letter(Num(group))
  }

  /** Five-bit groups in order; the last one is filled with zero bits on the right. */
  function Groups(bits: seq<bit>): string {
    if bits == [] then []
    else if |bits| < 5 then [Symbol(bits + Zeros(5 - |bits|))]
    else [Symbol(bits[..5])] + Groups(bits[5..])
  }

  function Encode(bytes: seq<byte>): string { Groups(Bits(bytes)) }

  lemma GroupsCons(group: seq<bit>, rest: seq<bit>)
    requires |group| == 5
    ensures Groups(group + rest) == [Symbol(group)] + Groups(rest)
  {
    hide Symbol;
    assert (group + rest)[..5] == group && (group + rest)[5..] == rest;
  }

  lemma {:induction false} GroupsSplit(done: seq<bit>, rest: seq<bit>)
    requires |done| % 5 == 0
    ensures Groups(done + rest) == Groups(done) + Groups(rest)
  {
    hide Symbol;
    if done == [] {
      assert done + rest == rest;
    } else {
      hide Groups;
      var group, more := done[..5], done[5..];
      GroupsSplit(more, rest);
      GroupsCons(group, more);
      GroupsCons(group, more + rest);
      assert done == group + more && done + rest == group + (more + rest);
    }
  }

  // ----- the streaming encoder

  lemma {:induction false} MulGap(d: int, m: nat)
    requires d != 0
    ensures d > 0 ==> d * m >= m
    ensures d < 0 ==> d * m <= 0 - m
    decreases Abs(d)
  {
    if d > 1 {
      MulGap(d - 1, m);
      assert d * m == (d - 1) * m + m;
    } else if d < -1 {
      MulGap(d + 1, m);
      assert d * m == (d + 1) * m - m;
    }
  }

  lemma DivModUnique(x: int, q: int, r: nat, m: nat)
    requires r < m && x == q * m + r
    ensures x / m == q && x % m == r
  {
    var q', r' := x / m, x % m;
    assert x == q' * m + r';
    var d := q' - q;
    assert d * m == q' * m - q * m;
    if d != 0 {
      MulGap(d, m);
    }
  }

  /** The wrap-around takes away a multiple of 256 * m. */
  lemma WrapIsMultiple(y: nat, w: nat, k: nat)
    requires w * k == TWO32
    ensures y % TWO32 == y - (y / TWO32 * w) * k
  {
    var q := y / TWO32;
    assert q * (w * k) == (q * w) * k;
  }

  lemma PushValue(value: nat, n: nat, m: nat, b: byte)
    requires m == 1 || m == 2 || m == 4 || m == 8 || m == 16
    requires value % m == n
    ensures ((value * 256) % TWO32 + b) % (256 * m) == n * 256 + b
  {
    var q := value / m;
    var w := TWO32 / (256 * m);
    assert w * (256 * m) == TWO32;
    WrapIsMultiple(value * 256, w, 256 * m);
    var wraps := value * 256 / TWO32;
    var x := (value * 256) % TWO32 + b;
    assert value * 256 == q * (256 * m) + n * 256;
    assert (q - wraps * w) * (256 * m) == q * (256 * m) - (wraps * w) * (256 * m);
    DivModUnique(x, q - wraps * w, n * 256 + b, 256 * m);
  }

  lemma SmallPowers()
    ensures Pow2(0) == 1 && Pow2(1) == 2 && Pow2(2) == 4 && Pow2(3) == 8 && Pow2(4) == 16
    ensures Pow2(5) == 32 && Pow2(8) == 256
  {
    assert Pow2(4) == 16;
    assert Pow2(8) == 16 * Pow2(4);
  }

  /** Taking in one byte, with the wrap-around, keeps the pending bits in the low end. */
  lemma PushByte(value: nat, pending: seq<bit>, b: byte)
    requires |pending| < 5 && value % Pow2(|pending|) == Num(pending)
    ensures ((value * 256) % TWO32 + b) % Pow2(|pending| + 8) == Num(pending + Digits(b, 8))
  {
    SmallPowers();
    hide Digits, Num;
    NumDigits(b, 8);
    NumConcat(pending, Digits(b, 8));
    PowerSum(|pending|, 8);
    PushValue(value, Num(pending), Pow2(|pending|), b);
  }

  /** The five bits at the top of the pending ones are the next group. */
  lemma PopGroup(value: nat, pending: seq<bit>)
    requires 5 <= |pending| <= 12 && value % Pow2(|pending|) == Num(pending)
    ensures (value / Pow2(|pending| - 5)) % 32 == Num(pending[..5])
    ensures value % Pow2(|pending| - 5) == Num(pending[5..])
  {
    var k := |pending| - 5;
    var head, tail := pending[..5], pending[5..];
    assert pending == head + tail;
    NumConcat(head, tail);
    NumBound(head);
    NumBound(tail);
    assert Pow2(5) == 32;
    PowerSum(5, k);
    ExtractGroup(value, Pow2(k), Num(head), Num(tail));
  }

  lemma ExtractGroup(value: nat, m: nat, head: nat, tail: nat)
    requires m > 0 && head < 32 && tail < m
    requires value % (32 * m) == head * m + tail
    ensures (value / m) % 32 == head && value % m == tail
  {
    var q := value / (32 * m);
    assert value == q * (32 * m) + (head * m + tail);
    assert value == (q * 32 + head) * m + tail;
    DivModUnique(value, q * 32 + head, tail, m);
    DivModUnique(q * 32 + head, q, head, 32);
  }

  /** The bits left over at the end, shifted up, are the last zero-filled group. */
  lemma LastGroup(value: nat, pending: seq<bit>)
    requires 0 < |pending| < 5 && value % Pow2(|pending|) == Num(pending)
    ensures (value * Pow2(5 - |pending|)) % TWO32 % 32 == Num(pending + Zeros(5 - |pending|))
  {
    var m, k := Pow2(|pending|), Pow2(5 - |pending|);
    var n := Num(pending);
    NumConcat(pending, Zeros(5 - |pending|));
    ZerosAreZero(5 - |pending|);
    NumBound(pending);
    PowerSum(|pending|, 5 - |pending|);
    SmallPowers();
    assert m * k == 32;
    LastValue(value, n, m, k);
  }

  lemma ScaleUp(q: nat, n: nat, m: nat, k: nat)
    requires m * k == 32 && n < m
    ensures (q * m + n) * k == q * 32 + n * k
    ensures n * k < 32
  {
    assert (q * m + n) * k == q * (m * k) + n * k;
    assert k > 0;
    assert (m - n) * k == m * k - n * k;
    MulGap(m - n, k);
  }

  lemma LastValue(value: nat, n: nat, m: nat, k: nat)
    requires m * k == 32 && m > 0 && value % m == n < m
    ensures (value * k) % TWO32 % 32 == n * k
  {
    var q := value / m;
    ScaleUp(q, n, m, k);
    var y := value * k;
    assert y == q * 32 + n * k;
    var wraps := y / TWO32;
    DivModUnique(y % TWO32, q - wraps * 0x800_0000, n * k, 32);
  }

  lemma {:induction false} ZerosAreZero(n: nat)
    ensures Num(Zeros(n)) == 0
  {
    if n != 0 {
      ZerosAreZero(n - 1);
      assert Zeros(n)[..n - 1] == Zeros(n - 1);
    }
  }

  lemma OneGroup(group: seq<bit>)
    requires |group| == 5
    ensures Groups(group) == [Symbol(group)]
  {
    assert group[..5] == group;
    assert Groups(group[5..]) == [];
  }

  lemma Regroup(a: seq<bit>, b: seq<bit>, n: nat)
    requires n <= |b|
    ensures (a + b[..n]) + b[n..] == a + b
  {
    assert b == b[..n] + b[n..];
  }

  /** Moving one group from the pending bits to the output. */
  lemma EmitGroup(done: seq<bit>, pending: seq<bit>)
    requires |done| % 5 == 0 && 5 <= |pending|
    ensures |done + pending[..5]| % 5 == 0
    ensures Groups(done + pending[..5]) == Groups(done) + [Symbol(pending[..5])]
    ensures (done + pending[..5]) + pending[5..] == done + pending
  {
    GroupsSplit(done, pending[..5]);
    OneGroup(pending[..5]);
    Regroup(done, pending, 5);
  }

  /** The accumulator keeps the pending bits in its low end; what is above is stale. */
  ghost predicate Holds(value: nat, pending: seq<bit>) {
    value % Pow2(|pending|) == Num(pending)
  }

  function Push(value: nat, b: byte): nat { (value * 256) % TWO32 + b }

  function Top(value: nat, bits: nat): (n: nat)
    requires 5 <= bits
    ensures n < 32
  {
    (value / Pow2(bits - 5)) % 32
  }

  function Rest(value: nat, bits: nat): (n: nat)
    requires 0 < bits < 5
    ensures n < 32
  {
    (value * Pow2(5 - bits)) % TWO32 % 32
  }

  lemma HoldsAfterPush(value: nat, pending: seq<bit>, b: byte)
    requires |pending| < 5 && Holds(value, pending)
    ensures Holds(Push(value, b), pending + Digits(b, 8))
  {
    PushByte(value, pending, b);
  }

  lemma HoldsAfterTop(value: nat, pending: seq<bit>)
    requires 5 <= |pending| <= 12 && Holds(value, pending)
    ensures Letter(Top(value, |pending|)) == Symbol(pending[..5])
    ensures Holds(value, pending[5..])
  {
    PopGroup(value, pending);
  }

  lemma RestIsLast(value: nat, pending: seq<bit>)
    requires 0 < |pending| < 5 && Holds(value, pending)
    ensures [Letter(Rest(value, |pending|))] == Groups(pending)
  {
    LastGroup(value, pending);
  }

  lemma BitsOfNext(bytes: seq<byte>, i: nat)
    requires i < |bytes|
    ensures Bits(bytes[..i + 1]) == Bits(bytes[..i]) + Digits(bytes[i], 8)
  {
    assert bytes[..i + 1][..i] == bytes[..i];
  }

  method EncodeStream(bytes: seq<byte>) returns (out: string)
    ensures out == Encode(bytes)
  {
    var bits: nat, value: nat := 0, 0;
    out := "";
    ghost var done: seq<bit>, pending: seq<bit> := [], [];
    for i := 0 to |bytes|
      invariant bits == |pending| < 5 && Holds(value, pending)
      invariant |done| % 5 == 0 && done + pending == Bits(bytes[..i])
      invariant out == Groups(done)
    {
      HoldsAfterPush(value, pending, bytes[i]);
      BitsOfNext(bytes, i);
      assert done + (pending + Digits(bytes[i], 8)) == (done + pending) + Digits(bytes[i], 8);
      value := Push(value, bytes[i]);
      bits := bits + 8;
      pending := pending + Digits(bytes[i], 8);
      while bits >= 5
        invariant bits == |pending| <= 12 && Holds(value, pending)
        invariant |done| % 5 == 0 && done + pending == Bits(bytes[..i + 1])
        invariant out == Groups(done)
      {
        HoldsAfterTop(value, pending);
        EmitGroup(done, pending);
        out := out + [Letter(Top(value, bits))];
        bits := bits - 5;
        done, pending := done + pending[..5], pending[5..];
      }
    }
    assert bytes[..|bytes|] == bytes;
    GroupsSplit(done, pending);
    if bits > 0 {
      RestIsLast(value, pending);
      out := out + [Letter(Rest(value, bits))];
    }
  }

  // ----- decoding

  function IndexOf(c: char): (r: Option<nat>)
    ensures r.Some? ==> r.value < 32 && Letter(r.value) == c
  {
    if 'a' <= c <= 'z' then Some(c as int - 'a' as int)
    else if '2' <= c <= '7' then Some(26 + c as int - '2' as int)
    else None
  }

  /** The bits that a text stands for; characters outside the alphabet add nothing. */
  function TextBits(s: string): seq<bit> {
    if s == [] then []
    else (match IndexOf(s[0]) case Some(n) => Digits(n, 5) case None => []) + TextBits(s[1..])
  }

  /** The whole bytes of a bit string. */
  function Bytes(bits: seq<bit>): seq<byte> {
    if |bits| < 8 then []
    else
      NumBound(bits[..8]);
      assert Pow2(8) == 256;
      [Num(bits[..8])] + Bytes(bits[8..])
  }

  function Decode(s: string): seq<byte> { Bytes(TextBits(s)) }

  lemma IndexOfAlphabet(n: nat)
    requires n < 32
    ensures IndexOf(Letter(n)) == Some(n)
  {
  }

  lemma SymbolBits(group: seq<bit>)
    requires |group| == 5
    ensures TextBits([Symbol(group)]) == group
  {
    NumBound(group);
    assert Pow2(5) == 32;
    IndexOfAlphabet(Num(group));
    DigitsNum(group);
    assert TextBits([Symbol(group)][1..]) == [];
  }

  lemma TextBitsCons(c: char, rest: string)
    ensures TextBits([c] + rest) == TextBits([c]) + TextBits(rest)
  {
    assert ([c] + rest)[1..] == rest && [c][1..] == [];
    assert TextBits([c][1..]) == [];
  }

  /** Decoding a text gives the bits back, followed by fewer than five zero bits. */
  lemma {:induction false} TextBitsGroups(bits: seq<bit>)
    ensures |Groups(bits)| == (|bits| + 4) / 5
    ensures TextBits(Groups(bits)) == bits + Zeros(5 * |Groups(bits)| - |bits|)
  {
    if |bits| < 5 {
      ShortGroup(bits);
    } else {
      hide Groups, TextBits, Symbol, Zeros;
      var group, rest := bits[..5], bits[5..];
      assert bits == group + rest;
      TextBitsGroups(rest);
      SymbolBits(group);
      GroupsCons(group, rest);
      TextBitsCons(Symbol(group), Groups(rest));
      var n := |Groups(rest)|;
      assert 5 * (n + 1) - |bits| == 5 * n - |rest|;
      assert TextBits(Groups(bits)) == group + (rest + Zeros(5 * n - |rest|));
    }
  }

  lemma ShortGroup(bits: seq<bit>)
    requires |bits| < 5
    ensures |Groups(bits)| == (|bits| + 4) / 5
    ensures TextBits(Groups(bits)) == bits + Zeros(5 * |Groups(bits)| - |bits|)
  {
    if bits != [] {
      hide TextBits, Symbol, Zeros;
      SymbolBits(bits + Zeros(5 - |bits|));
    }
  }

  lemma BitsSnoc(bytes: seq<byte>, b: byte)
    ensures Bits(bytes + [b]) == Bits(bytes) + Digits(b, 8)
  {
    assert (bytes + [b])[..|bytes|] == bytes;
  }

  lemma BitsNone()
    ensures Bits([]) == []
  {
  }

  lemma {:induction false} BitsPrepend(b: byte, rest: seq<byte>)
    ensures Bits([b] + rest) == Digits(b, 8) + Bits(rest)
  {
    hide Bits, Digits;
    BitsNone();
    if rest == [] {
      BitsSnoc([], b);
      assert [b] + rest == [] + [b];
    } else {
      var rest', x := rest[..|rest| - 1], rest[|rest| - 1];
      BitsPrepend(b, rest');
      BitsSnoc([b] + rest', x);
      BitsSnoc(rest', x);
      assert rest == rest' + [x] && [b] + rest == ([b] + rest') + [x];
    }
  }

  lemma BytesOfOne(b: byte, rest: seq<bit>)
    ensures Bytes(Digits(b, 8) + rest) == [b] + Bytes(rest)
  {
    hide Digits, Num;
    var all := Digits(b, 8) + rest;
    SmallPowers();
    NumDigits(b, 8);
    assert all[..8] == Digits(b, 8) && all[8..] == rest;
  }

  lemma BytesOfFew(bits: seq<bit>)
    requires |bits| < 8
    ensures Bytes(bits) == []
  {
  }

  lemma {:induction false} BytesBits(bytes: seq<byte>, pad: seq<bit>)
    requires |pad| < 8
    ensures Bytes(Bits(bytes) + pad) == bytes
    ensures |Bits(bytes)| == 8 * |bytes|
  {
    hide Bits, Bytes, Digits;
    BitsNone();
    if bytes == [] {
      assert [] + pad == pad;
      BytesOfFew(pad);
    } else {
      var b, rest := bytes[0], bytes[1..];
      BytesBits(rest, pad);
      BitsPrepend(b, rest);
      assert bytes == [b] + rest;
      BytesOfOne(b, Bits(rest) + pad);
      assert Digits(b, 8) + Bits(rest) + pad == Digits(b, 8) + (Bits(rest) + pad);
    }
  }

  lemma EncodeLength(bytes: seq<byte>)
    ensures |Encode(bytes)| == (8 * |bytes| + 4) / 5
  {
    BytesBits(bytes, []);
    TextBitsGroups(Bits(bytes));
  }

  lemma DecodeEncode(bytes: seq<byte>)
    ensures Decode(Encode(bytes)) == bytes
  {
    EncodeLength(bytes);
    TextBitsGroups(Bits(bytes));
    BytesBits(bytes, []);
    BytesBits(bytes, Zeros(5 * |Encode(bytes)| - 8 * |bytes|));
  }

  /** Different byte strings, of equal or different lengths, never share a text. */
  lemma EncodeInjective(a: seq<byte>, b: seq<byte>)
    ensures Encode(a) == Encode(b) <==> a == b
  {
    DecodeEncode(a);
    DecodeEncode(b);
  }

  // ----- the demo CID

  /** Text of a demo CID over a digest; the slice keeps at most 52 characters. */
  function DemoCid(digest: seq<byte>): string {
    var text := Encode(digest);
    "bafybei" + if |text| <= 52 then text else text[..52]
  }

  /** For 32-byte digests the slice drops nothing, so the demo CID identifies the digest. */
  lemma DemoCidInjective(a: seq<byte>, b: seq<byte>)
    requires |a| == 32 && |b| == 32
    ensures |DemoCid(a)| == 59 && DemoCid(a)[..7] == "bafybei" && Decode(DemoCid(a)[7..]) == a
    ensures DemoCid(a) == DemoCid(b) <==> a == b
  {
    EncodeLength(a);
    EncodeLength(b);
    EncodeInjective(a, b);
    DecodeEncode(a);
    assert DemoCid(a)[7..] == Encode(a) && DemoCid(b)[7..] == Encode(b);
  }
}
