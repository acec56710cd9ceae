/**
 Edit distance of the command-line shell: the in-place matrix, shortest edit scripts,
 the metric laws, and the suggestion made for an unknown command.
 */
module EditDistance {
  import opened Prelude

  // ----- the distance, by its recurrence on last characters

  function DropLast(s: string): string
    requires s != []
  {
    s[..|s| - 1]
  }

  function Last(s: string): char
    requires s != []
  {
    s[|s| - 1]
  }

  function Cost(c: char, d: char): nat { if c == d then 0 else 1 }

  function Distance(s: string, t: string): nat
    decreases |s| + |t|
  {
    if s == [] then |t|
    else if t == [] then |s|
    else
      Min(Min(Distance(DropLast(s), t) + 1, Distance(s, DropLast(t)) + 1),
          Distance(DropLast(s), DropLast(t)) + Cost(Last(s), Last(t)))
  }

  // ----- edit scripts

  /** One edit of a string, at a position. */
  datatype Edit = Insert(at: nat, c: char) | Delete(at: nat) | Substitute(at: nat, c: char)

  predicate Applicable(e: Edit, s: string) {
    if e.Insert? then e.at <= |s| else e.at < |s|
  }

  function ApplyEdit(e: Edit, s: string): string
    requires Applicable(e, s)
  {
    match e
    case Insert(i, c) => s[..i] + [c] + s[i..]
    case Delete(i) => s[..i] + s[i + 1..]
    case Substitute(i, c) => s[..i] + [c] + s[i + 1..]
  }

  /** Carrying out the edits one after the other turns `s` into `t`. */
  predicate Transforms(script: seq<Edit>, s: string, t: string)
    decreases |script|
  {
    if script == [] then s == t
    else Applicable(script[0], s) && Transforms(script[1..], ApplyEdit(script[0], s), t)
  }

  // ----- metric laws

  lemma {:induction false} DistanceSymmetric(s: string, t: string)
    ensures Distance(s, t) == Distance(t, s)
    decreases |s| + |t|
  {
    if s != [] && t != [] {
      DistanceSymmetric(DropLast(s), t);
      DistanceSymmetric(s, DropLast(t));
      DistanceSymmetric(DropLast(s), DropLast(t));
    }
  }

  lemma {:induction false} DistanceZero(s: string, t: string)
    ensures Distance(s, t) == 0 <==> s == t
    decreases |s| + |t|
  {
    if s != [] && t != [] {
      DistanceZero(DropLast(s), DropLast(t));
      assert s == DropLast(s) + [Last(s)] && t == DropLast(t) + [Last(t)];
    }
  }

  /** Each of the three moves of the recurrence bounds the distance. */
  lemma Moves(s: string, t: string)
    ensures s != [] ==> Distance(s, t) <= Distance(DropLast(s), t) + 1
    ensures t != [] ==> Distance(s, t) <= Distance(s, DropLast(t)) + 1
    ensures s != [] && t != [] ==>
              Distance(s, t) <= Distance(DropLast(s), DropLast(t)) + Cost(Last(s), Last(t))
  {
  }

  lemma {:induction false} Triangle(a: string, b: string, c: string)
    ensures Distance(a, c) <= Distance(a, b) + Distance(b, c)
    decreases |a| + |b| + |c|
  {
    Moves(a, c);
    if a != [] && Distance(a, b) == Distance(DropLast(a), b) + 1 {
      Triangle(DropLast(a), b, c);
    } else if c != [] && Distance(b, c) == Distance(b, DropLast(c)) + 1 {
      Triangle(a, b, DropLast(c));
    } else if b != [] {
      var b' := DropLast(b);
      Triangle(a, b', c);
      if a != [] {
        Triangle(DropLast(a), b', c);
      }
      if c != [] {
        Triangle(a, b', DropLast(c));
      }
      if a != [] && c != [] {
        Triangle(DropLast(a), b', DropLast(c));
      }
    }
  }

  // ----- the distance is the length of a shortest script

  lemma {:induction false} CommonSuffix(s: string, t: string, u: string)
    ensures Distance(s + u, t + u) <= Distance(s, t)
    decreases |u|
  {
    hide Distance;
    if u == [] {
      assert s + u == s && t + u == t;
    } else {
      CommonSuffix(s, t, DropLast(u));
      Moves(s + u, t + u);
      assert DropLast(s + u) == s + DropLast(u) && DropLast(t + u) == t + DropLast(u);
    }
  }

  lemma LastCharacter(s: string, c: char)
    ensures DropLast(s + [c]) == s
  {
  }

  lemma TailChange(pre: string, m: string, m': string)
    requires |m| <= 1 && |m'| <= 1
    ensures Distance(pre + m, pre + m') <= 1
  {
    hide Distance;
    DistanceZero(pre, pre);
    if m == [] && m' == [] {
      assert pre + m == pre == pre + m';
    } else if m == [] {
      assert pre + m == pre && m' == [m'[0]];
      LastCharacter(pre, m'[0]);
      Moves(pre, pre + m');
    } else if m' == [] {
      assert pre + m' == pre && m == [m[0]];
      LastCharacter(pre, m[0]);
      Moves(pre + m, pre);
    } else {
      assert m == [m[0]] && m' == [m'[0]];
      LastCharacter(pre, m[0]);
      LastCharacter(pre, m'[0]);
      Moves(pre + m, pre + m');
    }
  }

  /** Changing at most one character in the middle of a string moves it by at most one. */
  lemma LocalChange(pre: string, m: string, m': string, post: string)
    requires |m| <= 1 && |m'| <= 1
    ensures Distance(pre + m + post, pre + m' + post) <= 1
  {
    TailChange(pre, m, m');
    CommonSuffix(pre + m, pre + m', post);
  }

  lemma OneEditIsOneAway(e: Edit, s: string)
    requires Applicable(e, s)
    ensures Distance(s, ApplyEdit(e, s)) <= 1
  {
    hide Distance;
    var i := e.at;
    var m := if e.Insert? then [] else [s[i]];
    var m' := if e.Delete? then [] else [e.c];
    LocalChange(s[..i], m, m', s[i + |m|..]);
    assert s[..i] + m + s[i + |m|..] == s;
    assert s[..i] + m' + s[i + |m|..] == ApplyEdit(e, s);
  }

  /** No script is shorter than the distance. */
  lemma {:induction false} NoShorterScript(script: seq<Edit>, s: string, t: string)
    requires Transforms(script, s, t)
    ensures Distance(s, t) <= |script|
    decreases |script|
  {
    hide Distance;
    if script == [] {
      DistanceZero(s, t);
    } else {
      var s' := ApplyEdit(script[0], s);
      OneEditIsOneAway(script[0], s);
      NoShorterScript(script[1..], s', t);
      Triangle(s, s', t);
    }
  }

  lemma EditWithSuffix(e: Edit, s: string, u: string)
    requires Applicable(e, s)
    ensures Applicable(e, s + u) && ApplyEdit(e, s + u) == ApplyEdit(e, s) + u
  {
    var i, z := e.at, s + u;
    assert z[..i] == s[..i];
    if e.Insert? {
      assert z[i..] == s[i..] + u;
    } else {
      assert z[i + 1..] == s[i + 1..] + u;
    }
  }

  /** An edit that does not look past a prefix can be carried out with text after it. */
  lemma {:induction false} TransformsWithSuffix(script: seq<Edit>, s: string, t: string, u: string)
    requires Transforms(script, s, t)
    ensures Transforms(script, s + u, t + u)
    decreases |script|
  {
    hide ApplyEdit, Applicable;
    if script != [] {
      EditWithSuffix(script[0], s, u);
      TransformsWithSuffix(script[1..], ApplyEdit(script[0], s), t, u);
    }
  }

  lemma PrependEdit(e: Edit, script: seq<Edit>, s: string, t: string)
    requires Applicable(e, s) && Transforms(script, ApplyEdit(e, s), t)
    ensures Transforms([e] + script, s, t)
  {
    assert ([e] + script)[1..] == script;
  }

  lemma DeleteLast(script: seq<Edit>, s: string, t: string)
    requires s != [] && Transforms(script, DropLast(s), t)
    ensures Transforms([Delete(|s| - 1)] + script, s, t)
  {
    hide Transforms;
    assert ApplyEdit(Delete(|s| - 1), s) == DropLast(s);
    PrependEdit(Delete(|s| - 1), script, s, t);
  }

  lemma InsertLast(script: seq<Edit>, s: string, t: string)
    requires t != [] && Transforms(script, s, DropLast(t))
    ensures Transforms([Insert(|s|, Last(t))] + script, s, t)
  {
    hide Transforms;
    TransformsWithSuffix(script, s, DropLast(t), [Last(t)]);
    assert ApplyEdit(Insert(|s|, Last(t)), s) == s + [Last(t)] && DropLast(t) + [Last(t)] == t;
    PrependEdit(Insert(|s|, Last(t)), script, s, t);
  }

  lemma MatchLast(script: seq<Edit>, s: string, t: string)
    requires s != [] && t != [] && Transforms(script, DropLast(s), DropLast(t))
    ensures Last(s) == Last(t) ==> Transforms(script, s, t)
    ensures Transforms([Substitute(|s| - 1, Last(t))] + script, s, t)
  {
    hide Transforms;
    TransformsWithSuffix(script, DropLast(s), DropLast(t), [Last(t)]);
    assert DropLast(t) + [Last(t)] == t;
    assert Last(s) == Last(t) ==> DropLast(s) + [Last(t)] == s;
    assert ApplyEdit(Substitute(|s| - 1, Last(t)), s) == DropLast(s) + [Last(t)];
    PrependEdit(Substitute(|s| - 1, Last(t)), script, s, t);
  }

  /** Some script is as short as the distance. */
  lemma {:induction false} ShortestScript(s: string, t: string) returns (script: seq<Edit>)
    ensures Transforms(script, s, t)
    ensures |script| == Distance(s, t)
    decreases |s| + |t|
  {
    if s == [] && t == [] {
      script := [];
    } else if s != [] && Distance(s, t) == Distance(DropLast(s), t) + 1 {
      var rest := ShortestScript(DropLast(s), t);
      DeleteLast(rest, s, t);
      script := [Delete(|s| - 1)] + rest;
    } else if t != [] && Distance(s, t) == Distance(s, DropLast(t)) + 1 {
      var rest := ShortestScript(s, DropLast(t));
      InsertLast(rest, s, t);
      script := [Insert(|s|, Last(t))] + rest;
    } else {
      var rest := ShortestScript(DropLast(s), DropLast(t));
      MatchLast(rest, s, t);
      script := if Last(s) == Last(t) then rest else [Substitute(|s| - 1, Last(t))] + rest;
    }
  }

  /** `n` is the length of a shortest script from `s` to `t`. */
  ghost predicate IsEditDistance(s: string, t: string, n: nat) {
    && (exists script :: Transforms(script, s, t) && |script| == n)
    && (forall script :: Transforms(script, s, t) ==> n <= |script|)
  }

  lemma DistanceIsEditDistance(s: string, t: string)
    ensures forall n: nat :: IsEditDistance(s, t, n) <==> n == Distance(s, t)
  {
    var best := ShortestScript(s, t);
    forall script | Transforms(script, s, t)
      ensures Distance(s, t) <= |script|
    {
      NoShorterScript(script, s, t);
    }
  }

  // ----- the shell's matrix

  /** Bytes that a character takes in UTF-8. */
  function Utf8Width(c: char): (n: nat)
    ensures 1 <= n <= 4
  {
    if c as int < 0x80 then 1
    else if c as int < 0x800 then 2
    else if c as int < 0x10000 then 3
    else 4
  }

  /** The bytes of a character in UTF-8 (section 3 of RFC 3629). */
  function Utf8(c: char): seq<int> {
    var n := c as int;
    if n < 0x80 then [n]
    else if n < 0x800 then [0xc0 + n / 0x40, 0x80 + n % 0x40]
    else if n < 0x10000 then [0xe0 + n / 0x1000, 0x80 + n / 0x40 % 0x40, 0x80 + n % 0x40]
    else [0xf0 + n / 0x40000, 0x80 + n / 0x1000 % 0x40, 0x80 + n / 0x40 % 0x40, 0x80 + n % 0x40]
  }

  /** The number that the payload bits of a byte sequence spell. */
  function Payload(bytes: seq<int>): int {
    match |bytes|
    case 1 => bytes[0]
    case 2 => (bytes[0] - 0xc0) * 0x40 + bytes[1] - 0x80
    case 3 => (bytes[0] - 0xe0) * 0x1000 + (bytes[1] - 0x80) * 0x40 + bytes[2] - 0x80
    case 4 => (bytes[0] - 0xf0) * 0x40000 + (bytes[1] - 0x80) * 0x1000 + (bytes[2] - 0x80) * 0x40 + bytes[3] - 0x80
    case _ => 0
  }

  /** The width is that of the encoding, and the encoding is well-formed and spells the character. */
  lemma WidthIsUtf8(c: char)
    ensures |Utf8(c)| == Utf8Width(c) && Payload(Utf8(c)) == c as int
    ensures forall i :: 0 < i < |Utf8(c)| ==> 0x80 <= Utf8(c)[i] < 0xc0
    ensures var lead := Utf8(c)[0];
            match |Utf8(c)| case 1 => lead < 0x80 case 2 => 0xc2 <= lead < 0xe0 case 3 => 0xe0 <= lead < 0xf0
                            case _ => 0xf0 <= lead < 0xf5
  {
    var n := c as int;
    assert n / 0x40 == n / 0x1000 * 0x40 + n / 0x40 % 0x40;
    assert n / 0x1000 == n / 0x40000 * 0x40 + n / 0x1000 % 0x40;
  }

  /** `str::len` of the shell's language: a length in bytes. */
  function ByteLength(s: string): nat {
    if s == [] then 0 else ByteLength(DropLast(s)) + Utf8Width(Last(s))
  }

  predicate IsAscii(s: string) {
    forall i :: 0 <= i < |s| ==> s[i] as int < 0x80
  }

  lemma {:induction false} ByteLengthAtLeastChars(s: string)
    ensures |s| <= ByteLength(s)
    ensures |s| == ByteLength(s) <==> IsAscii(s)
  {
    if s != [] {
      var s' := DropLast(s);
      ByteLengthAtLeastChars(s');
      assert IsAscii(s) <==> IsAscii(s') && Last(s) as int < 0x80 by {
        assert forall i :: 0 <= i < |s'| ==> s'[i] == s[i];
      }
    }
  }

  /**
   What the matrix holds in its last corner: the rows and columns are counted in bytes, the
   cells are filled per character, and every cell that is never filled keeps its initial zero.
   */
  function Computed(s: string, t: string): nat {
    if IsAscii(s) && IsAscii(t) then Distance(s, t)
    else if s == [] then ByteLength(t)
    else if t == [] then ByteLength(s)
    else 0
  }

  /** A matrix of zeros with its first column and its first row numbered. */
  method NumberedMatrix(len1: nat, len2: nat) returns (matrix: array2<nat>)
    ensures fresh(matrix) && matrix.Length0 == len1 + 1 && matrix.Length1 == len2 + 1
    ensures forall a, b :: 0 <= a <= len1 && 0 <= b <= len2 ==>
              matrix[a, b] == if a == 0 then b else if b == 0 then a else 0
  {
    matrix := new nat[len1 + 1, len2 + 1]((_, _) => 0);
    for i := 0 to len1 + 1
      invariant forall a, b :: 0 <= a <= len1 && 0 <= b <= len2 ==>
        matrix[a, b] == if b == 0 && a < i then a else 0
    {
      matrix[i, 0] := i;
    }
    for j := 0 to len2 + 1
      invariant forall a, b :: 0 <= a <= len1 && 0 <= b <= len2 ==>
        matrix[a, b] == if b == 0 then a else if a == 0 && b < j then b else 0
    {
      matrix[0, j] := j;
    }
  }

  method LevenshteinDistance(s1: string, s2: string) returns (d: nat)
    ensures d == Computed(s1, s2)
  {
    hide Distance;
    var len1, len2 := ByteLength(s1), ByteLength(s2);
    ByteLengthAtLeastChars(s1);
    ByteLengthAtLeastChars(s2);
    var matrix := NumberedMatrix(len1, len2);
    for i := 0 to |s1|
      invariant forall a, b :: 0 <= a <= len1 && 0 <= b <= len2 ==>
        matrix[a, b] == Cell(s1, s2, i, 0, a, b)
    {
      for j := 0 to |s2|
        invariant forall a, b :: 0 <= a <= len1 && 0 <= b <= len2 ==>
          matrix[a, b] == Cell(s1, s2, i, j, a, b)
      {
        var cost := if s1[i] == s2[j] then 0 else 1;
        CellStep(s1, s2, i, j);
        matrix[i + 1, j + 1] := Min(Min(matrix[i, j + 1] + 1, matrix[i + 1, j] + 1), matrix[i, j] + cost);
      }
    }
    d := matrix[len1, len2];
    CornerCell(s1, s2);
  }

  /** The corner of the finished matrix. */
  lemma CornerCell(s: string, t: string)
    ensures Cell(s, t, |s|, 0, ByteLength(s), ByteLength(t)) == Computed(s, t)
  {
    ByteLengthAtLeastChars(s);
    ByteLengthAtLeastChars(t);
    assert s[..|s|] == s && t[..|t|] == t;
  }

  /** Content of cell (a, b) when `i` rows and `j` cells of the next row have been filled. */
  ghost function Cell(s: string, t: string, i: nat, j: nat, a: nat, b: nat): nat
    requires i <= |s| && j <= |t|
  {
    if a == 0 then b
    else if b == 0 then a
    else if b <= |t| && (a <= i || (a == i + 1 <= |s| && b <= j)) then Distance(s[..a], t[..b])
    else 0
  }

  lemma CellStep(s: string, t: string, i: nat, j: nat)
    requires i < |s| && j < |t|
    ensures Distance(s[..i + 1], t[..j + 1]) ==
            Min(Min(Cell(s, t, i, j, i, j + 1) + 1, Cell(s, t, i, j, i + 1, j) + 1),
                Cell(s, t, i, j, i, j) + Cost(s[i], t[j]))
  {
    assert DropLast(s[..i + 1]) == s[..i] && DropLast(t[..j + 1]) == t[..j];
    assert s[..0] == [] && t[..0] == [];
  }

  // ----- when the matrix is right

  /** The matrix computes the edit distance exactly for two ASCII strings, or equal ones. */
  lemma ComputedIsDistanceIff(s: string, t: string)
    ensures Computed(s, t) == Distance(s, t) <==> (IsAscii(s) && IsAscii(t)) || s == t
  {
    DistanceZero(s, t);
    ByteLengthAtLeastChars(s);
    ByteLengthAtLeastChars(t);
  }

  /** "é" against the empty string: two bytes, one character. */
  lemma NonAsciiCounterexample()
    ensures Computed("\U{e9}", "") == 2 && Distance("\U{e9}", "") == 1
    ensures Computed("\U{e9}", "a") == 0 && Distance("\U{e9}", "a") == 1
  {
    var e := "\U{e9}";
    assert !IsAscii(e) by { assert e[0] as int == 0xe9; }
    assert ByteLength(DropLast(e)) == 0;
    assert DropLast(e) == [] && DropLast("a") == [];
    assert Distance(e, "a") == 1 by {
      assert Distance([], []) == 0;
    }
  }

  // ----- suggestions for an unknown command

  predicate IsPrefix(s: string, t: string) { |s| <= |t| && t[..|s|] == s }

  const COMMANDS: seq<string> := [
    "help", "exit", "quit", "clear", "version", "pwd", "info", "add", "get", "cat", "ls",
    "peers", "id", "stats", "semantic", "search", "logic", "infer", "alias", "unalias"]

  /** The command is a proper completion of the input. */
  predicate Completes(cmd: string, input: string) { IsPrefix(input, cmd) && |cmd| > |input| }

  /** The command completes the input, or is one edit away from an ASCII input. */
  ghost predicate Similar(input: string, cmd: string) {
    Completes(cmd, input) || (IsAscii(input) && IsEditDistance(input, cmd, 1))
  }

  lemma ComputedOneIffSimilar(input: string, cmd: string)
    requires IsAscii(cmd) && cmd != []
    ensures Computed(input, cmd) == 1 <==> IsAscii(input) && IsEditDistance(input, cmd, 1)
    ensures Computed(input, cmd) == 1 ==> input != cmd
  {
    DistanceIsEditDistance(input, cmd);
    DistanceZero(input, cmd);
  }

  /** The first pass of the suggestion: the first command that completes the input. */
  method FindCompletion(commands: seq<string>, input: string) returns (r: Option<string>)
    ensures r.Some? ==> exists k :: 0 <= k < |commands| && commands[k] == r.value && Completes(r.value, input)
                                    && forall i :: 0 <= i < k ==> !Completes(commands[i], input)
    ensures r.None? ==> forall i :: 0 <= i < |commands| ==> !Completes(commands[i], input)
  {
    for k := 0 to |commands|
      invariant forall i :: 0 <= i < k ==> !Completes(commands[i], input)
    {
      if Completes(commands[k], input) {
        return Some(commands[k]);
      }
    }
    return None;
  }

  /** The second pass: the first command for which the matrix gives one. */
  method FindTypo(commands: seq<string>, input: string) returns (r: Option<string>)
    ensures r.Some? ==> exists k :: 0 <= k < |commands| && commands[k] == r.value && Computed(input, r.value) == 1
                                    && forall i :: 0 <= i < k ==> Computed(input, commands[i]) != 1
    ensures r.None? ==> forall i :: 0 <= i < |commands| ==> Computed(input, commands[i]) != 1
  {
    for k := 0 to |commands|
      invariant forall i :: 0 <= i < k ==> Computed(input, commands[i]) != 1
    {
      var d := LevenshteinDistance(input, commands[k]);
      if d == 1 {
        return Some(commands[k]);
      }
    }
    return None;
  }

  lemma CommandsAreAscii()
    ensures forall cmd :: cmd in COMMANDS ==> IsAscii(cmd) && cmd != []
  {
    var commands := COMMANDS;
    forall k | 0 <= k < |commands|
      ensures IsAscii(commands[k]) && commands[k] != []
    {
    }
  }

  /** The first command with a property stands at this position. */
  ghost predicate FirstSuch(commands: seq<string>, k: nat, p: string -> bool) {
    k < |commands| && p(commands[k]) && forall i :: 0 <= i < k ==> !p(commands[i])
  }

  ghost function Completing(input: string): string -> bool { cmd => Completes(cmd, input) }

  ghost function OneEditFrom(input: string): string -> bool {
    cmd => IsAscii(input) && IsEditDistance(input, cmd, 1)
  }

  /**
   The suggestion is the first known command, in the listed order, that completes the input;
   failing that, the first one that is one edit from an ASCII input; nothing exactly when no known
   command is similar. It is never the input itself.
   */
  method SuggestCommand(input: string) returns (r: Option<string>)
    ensures r.Some? ==> r.value != input && exists k ::
              && 0 <= k < |COMMANDS| && COMMANDS[k] == r.value
              && (FirstSuch(COMMANDS, k, Completing(input)) ||
                  (FirstSuch(COMMANDS, k, OneEditFrom(input)) &&
                   forall cmd :: cmd in COMMANDS ==> !Completes(cmd, input)))
    ensures r.None? ==> forall cmd :: cmd in COMMANDS ==> !Similar(input, cmd)
  {
    CommandsAreAscii();
    var commands := COMMANDS;
    r := FindCompletion(commands, input);
    if r.Some? {
      ghost var k :| 0 <= k < |commands| && commands[k] == r.value && Completes(r.value, input)
                     && forall i :: 0 <= i < k ==> !Completes(commands[i], input);
      assert FirstSuch(commands, k, Completing(input));
    } else {
      r := FindTypo(commands, input);
      forall cmd | cmd in commands
        ensures Computed(input, cmd) == 1 <==> OneEditFrom(input)(cmd)
        ensures Computed(input, cmd) == 1 ==> input != cmd
      {
        ComputedOneIffSimilar(input, cmd);
      }
      if r.Some? {
        ghost var k :| 0 <= k < |commands| && commands[k] == r.value && Computed(input, r.value) == 1
                       && forall i :: 0 <= i < k ==> Computed(input, commands[i]) != 1;
        assert forall i :: 0 <= i < k ==> commands[i] in commands;
        assert FirstSuch(commands, k, OneEditFrom(input));
      }
    }
  }
}
