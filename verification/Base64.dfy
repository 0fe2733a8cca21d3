/** The Base64 codec of utility/base64.c (RFC 4648 section 4). */
module Base64 {
  import opened Bytes

  const PAD: byte := 61

  type sextet = x: int | 0 <= x < 64

  /** The encoding table A-Z, a-z, 0-9, '+', '/', given by its runs. */
  function Symbol(v: sextet): (c: byte)
    ensures Sextet(c) == v
  {
    if v < 26 then 65 + v
    else if v < 52 then 97 + (v - 26)
    else if v < 62 then 48 + (v - 52)
    else if v == 62 then 43
    else 47
  }

  /** 0..63 for the alphabet, -1 for '=', -2 for CR, LF, TAB and space, -3 for anything else. */
  function Sextet(c: byte): (v: int)
    ensures -3 <= v < 64
  {
    if c == 13 || c == 10 || c == 9 || c == 32 then -2
    else if c == PAD then -1
    else if 65 <= c <= 90 then c - 65
    else if 97 <= c <= 122 then c - 97 + 26
    else if 48 <= c <= 57 then c - 48 + 52
    else if c == 43 then 62
    else if c == 47 then 63
    else -3
  }

  predicate InAlphabet(c: byte) {
    0 <= Sextet(c)
  }

  predicate IsSpace(c: byte) {
    Sextet(c) == -2
  }

  /** The encoding table, written out. */
  const ALPHABET: string := UPPER + LOWER + DIGITS + "+/"

  lemma SymbolTable(v: sextet)
    ensures |ALPHABET| == 64 && Symbol(v) == ALPHABET[v] as int
  {
    AsciiRuns();
  }

  /** What decoding makes of a character: its place in that table, a pad, whitespace, or none of these. */
  lemma SextetTable(c: byte)
    ensures |ALPHABET| == 64 && forall v: sextet :: Sextet(c) == v <==> ALPHABET[v] as int == c
    ensures Sextet(c) == -1 <==> c == 61
    ensures Sextet(c) == -2 <==> c == 9 || c == 10 || c == 13 || c == 32
  {
    hide ALPHABET;
    SymbolTable(0);
    forall v: sextet ensures |ALPHABET| == 64 && (Sextet(c) == v <==> ALPHABET[v] as int == c) {
      SymbolTable(v);
    }
  }

  lemma SymbolOfSextet(c: byte)
    requires InAlphabet(c)
    ensures Sextet(c) < 64 && Symbol(Sextet(c)) == c
  {
  }

  // ----- Octets to six-bit groups and back -----

  function Group0(a: byte): sextet { a / 4 }
  function Group1(a: byte, b: byte): sextet { a % 4 * 16 + b / 16 }
  function Group2(b: byte, c: byte): sextet { b % 16 * 4 + c / 64 }
  function Group3(c: byte): sextet { c % 64 }

  function Octet0(u: sextet, v: sextet): byte { u * 4 + v / 16 }
  function Octet1(v: sextet, w: sextet): byte { v % 16 * 16 + w / 4 }
  function Octet2(w: sextet, x: sextet): byte { w % 4 * 64 + x }

  lemma OctetsOfGroups(a: byte, b: byte, c: byte)
    ensures Octet0(Group0(a), Group1(a, b)) == a
    ensures Octet1(Group1(a, b), Group2(b, c)) == b
    ensures Octet2(Group2(b, c), Group3(c)) == c
  {
  }

  lemma GroupsOfOctets(u: sextet, v: sextet, w: sextet, x: sextet)
    ensures Group0(Octet0(u, v)) == u
    ensures Group1(Octet0(u, v), Octet1(v, w)) == v && Group1(Octet0(u, v), 0) == Cleared(v, 2)
    ensures Group2(Octet1(v, w), Octet2(w, x)) == w && Group2(Octet1(v, w), 0) == Cleared(w, 1)
    ensures Group3(Octet2(w, x)) == x
  {
  }

  /** A six-bit group without the low bits that `pads` padding characters discard. */
  function Cleared(v: sextet, pads: nat): sextet {
    if pads == 2 then v / 16 * 16 else v / 4 * 4
  }

  // ----- Encoding -----

  /** RFC 4648 section 4: three octets become four characters, a short tail is padded. */
  function Encode(d: seq<byte>): (f: seq<byte>)
    ensures |f| == EncodedLength(|d|)
  {
    if |d| == 0 then []
    else if |d| == 1 then [Symbol(Group0(d[0])), Symbol(Group1(d[0], 0)), PAD, PAD]
    else if |d| == 2 then [Symbol(Group0(d[0])), Symbol(Group1(d[0], d[1])), Symbol(Group2(d[1], 0)), PAD]
    else EncodeBlock(d[0], d[1], d[2]) + Encode(d[3..])
  }

  function EncodeBlock(a: byte, b: byte, c: byte): (q: seq<byte>)
    ensures |q| == 4
  {
    [Symbol(Group0(a)), Symbol(Group1(a, b)), Symbol(Group2(b, c)), Symbol(Group3(c))]
  }

  function EncodedLength(n: nat): nat {
    (n + 2) / 3 * 4
  }

  lemma EncodeFirst(d: seq<byte>)
    requires 3 <= |d|
    ensures Encode(d) == EncodeBlock(d[0], d[1], d[2]) + Encode(d[3..])
  {
  }

  lemma EncodeNothing()
    ensures Encode([]) == []
  {
  }

  /** Encoding splits between whole blocks. */
  lemma {:induction false} EncodeSplit(d: seq<byte>, k: nat)
    requires 3 * k <= |d|
    ensures |Encode(d[..3 * k])| == 4 * k
    ensures Encode(d) == Encode(d[..3 * k]) + Encode(d[3 * k..])
  {
    hide Encode, EncodeBlock, EncodedLength;
    if k == 0 {
      assert d[..0] == [] && d[0..] == d;
      EncodeNothing();
    } else {
      var c, t, rest := d[..3 * k], d[3..], d[3 * k..];
      EncodeFirst(d);
      EncodeFirst(c);
      EncodeSplit(t, k - 1);
      TailOfTake(d, 3 * k);
      assert 3 + 3 * (k - 1) == 3 * k;
    }
  }

  lemma TailOfTake(d: seq<byte>, n: nat)
    requires 3 <= n <= |d|
    ensures d[..n][3..] == d[3..][..n - 3] && d[3..][n - 3..] == d[n..]
  {
  }

  /** Three octets as a number, */
  function Number256(a: int, b: int, c: int): int {
    (a * 256 + b) * 256 + c
  }

  /** and four six-bit groups. */
  function Number64(u: int, v: int, w: int, x: int): int {
    ((u * 64 + v) * 64 + w) * 64 + x
  }

  lemma GroupsNumber(a: byte, b: byte, c: byte)
    ensures Number64(Group0(a), Group1(a, b), Group2(b, c), Group3(c)) == Number256(a, b, c)
  {
  }

  /** Do these characters print, as places in the table, this number? */
  ghost predicate Prints(q: seq<byte>, n: int) {
    exists u: sextet, v: sextet, w: sextet, x: sextet ::
      q == [Symbol(u), Symbol(v), Symbol(w), Symbol(x)] && Number64(u, v, w, x) == n
  }

  lemma PrintsIs(u: sextet, v: sextet, w: sextet, x: sextet)
    ensures Prints([Symbol(u), Symbol(v), Symbol(w), Symbol(x)], Number64(u, v, w, x))
  {
    hide Symbol, Number64;
  }

  /** Each three octets are printed as one number. */
  lemma EncodeBlockIs(d: seq<byte>, k: nat)
    requires 3 * k + 3 <= |d|
    ensures 4 * k + 4 <= |Encode(d)|
    ensures Prints(Encode(d)[4 * k..4 * k + 4], Number256(d[3 * k], d[3 * k + 1], d[3 * k + 2]))
  {
    hide Encode, Symbol, Number256, Number64, Prints, Group0, Group1, Group2, Group3;
    var t := d[3 * k..];
    EncodeSplit(d, k);
    EncodeFirst(t);
    var q := EncodeBlock(t[0], t[1], t[2]);
    assert Encode(d)[4 * k..4 * k + 4] == q;
    GroupsNumber(t[0], t[1], t[2]);
    PrintsIs(Group0(t[0]), Group1(t[0], t[1]), Group2(t[1], t[2]), Group3(t[2]));
  }

  /** The characters for the octets that are left over behind the blocks. */
  function TailOf(d: seq<byte>): (q: seq<byte>)
    ensures |q| == if |d| % 3 == 0 then 0 else 4
  {
    hide Encode;
    Encode(d)[|d| / 3 * 4..]
  }

  lemma TailIs(d: seq<byte>)
    ensures TailOf(d) == Encode(d[|d| / 3 * 3..])
  {
    hide Encode;
    EncodeSplit(d, |d| / 3);
  }

  /** One or two octets left over are filled up with zero bits, and characters for those alone are "=". */
  lemma EncodeTailIs(d: seq<byte>)
    ensures |d| % 3 == 1 ==>
              var q := TailOf(d);
              q[2] == q[3] == 61 && Prints([q[0], q[1], 65, 65], Number256(d[|d| - 1], 0, 0))
    ensures |d| % 3 == 2 ==>
              var q := TailOf(d);
              q[3] == 61 && Prints([q[0], q[1], q[2], 65], Number256(d[|d| - 2], d[|d| - 1], 0))
  {
    hide Encode, TailOf, Prints, Number256;
    TailIs(d);
    var t := d[|d| / 3 * 3..];
    if |d| % 3 == 1 {
      assert t == [d[|d| - 1]];
      OneTail(t[0]);
    } else if |d| % 3 == 2 {
      assert t == [d[|d| - 2], d[|d| - 1]];
      TwoTail(t[0], t[1]);
    }
  }

  lemma ZeroSymbol()
    ensures Symbol(0) == 65
  {
  }

  lemma ZeroGroups()
    ensures Group2(0, 0) == 0 && Group3(0) == 0
  {
  }

  lemma OneTail(a: byte)
    ensures var q := Encode([a]); |q| == 4 && q[2] == q[3] == 61 && Prints([q[0], q[1], 65, 65], Number256(a, 0, 0))
  {
    hide Symbol, Number64, Number256, Prints, Group0, Group1, Group2, Group3;
    ZeroSymbol();
    ZeroGroups();
    GroupsNumber(a, 0, 0);
    assert Encode([a]) == [Symbol(Group0(a)), Symbol(Group1(a, 0)), 61, 61];
    hide Encode;
    PrintsIs(Group0(a), Group1(a, 0), Group2(0, 0), Group3(0));
  }

  lemma TwoTail(a: byte, b: byte)
    ensures var q := Encode([a, b]);
      |q| == 4 && q[3] == 61 && Prints([q[0], q[1], q[2], 65], Number256(a, b, 0))
  {
    hide Symbol, Number64, Number256, Prints, Group0, Group1, Group2, Group3;
    ZeroSymbol();
    ZeroGroups();
    GroupsNumber(a, b, 0);
    assert Encode([a, b]) == [Symbol(Group0(a)), Symbol(Group1(a, b)), Symbol(Group2(b, 0)), 61];
    hide Encode;
    PrintsIs(Group0(a), Group1(a, b), Group2(b, 0), Group3(0));
  }

  // ----- Decoding -----

  /** The characters of a text that are not whitespace, in order. */
  function Filter(text: seq<byte>): (f: seq<byte>)
    ensures |f| <= |text|
    ensures forall k :: 0 <= k < |f| ==> !IsSpace(f[k])
  {
    if text == [] then []
    else if IsSpace(text[0]) then Filter(text[1..])
    else [text[0]] + Filter(text[1..])
  }

  /** Is `f` all alphabet characters but for `pads` closing '='? */
  ghost predicate PaddedBy(f: seq<byte>, pads: nat) {
    && pads <= |f|
    && (forall k :: 0 <= k < |f| - pads ==> InAlphabet(f[k]))
    && (forall k :: |f| - pads <= k < |f| ==> f[k] == PAD)
  }

  /** The accepted language, on texts without whitespace. */
  ghost predicate Accepted(f: seq<byte>) {
    |f| % 4 == 0 && (PaddedBy(f, 0) || PaddedBy(f, 1) || PaddedBy(f, 2))
  }

  /** Does `f` open with four alphabet characters? */
  predicate OpensWithQuad(f: seq<byte>) {
    4 <= |f| && InAlphabet(f[0]) && InAlphabet(f[1]) && InAlphabet(f[2]) && InAlphabet(f[3])
  }

  function QuadOctets(u: sextet, v: sextet, w: sextet, x: sextet): seq<byte> {
    [Octet0(u, v), Octet1(v, w), Octet2(w, x)]
  }

  /** The octets decoding writes, whether or not it accepts: whole quanta, then at most one padded quantum. */
  function Emitted(f: seq<byte>): (d: seq<byte>)
    ensures 4 * |d| <= 3 * |f|
  {
    if OpensWithQuad(f) then
      QuadOctets(Sextet(f[0]), Sextet(f[1]), Sextet(f[2]), Sextet(f[3])) + Emitted(f[4..])
    else if 3 <= |f| && InAlphabet(f[0]) && InAlphabet(f[1]) && f[2] == PAD then
      [Octet0(Sextet(f[0]), Sextet(f[1]))]
    else if 4 <= |f| && InAlphabet(f[0]) && InAlphabet(f[1]) && InAlphabet(f[2]) && f[3] == PAD then
      [Octet0(Sextet(f[0]), Sextet(f[1])), Octet1(Sextet(f[1]), Sextet(f[2]))]
    else
      []
  }

  // ----- Laws -----

  lemma {:induction false} FilterConcat(s: seq<byte>, t: seq<byte>)
    ensures Filter(s + t) == Filter(s) + Filter(t)
  {
    if s == [] {
      assert s + t == t;
    } else {
      assert (s + t)[1..] == s[1..] + t;
      FilterConcat(s[1..], t);
    }
  }

  /** Filtering drops tabs, newlines, returns and spaces, wherever they stand, and nothing else. */
  lemma FilterDrops(a: seq<byte>, c: byte, b: seq<byte>)
    ensures Filter(a + [c] + b) ==
              if c == 9 || c == 10 || c == 13 || c == 32 then Filter(a + b) else Filter(a) + [c] + Filter(b)
  {
    SextetTable(c);
    hide Sextet;
    FilterConcat(a + [c], b);
    FilterConcat(a, [c]);
    FilterConcat(a, b);
    assert [c][1..] == [];
  }

  lemma {:induction false} FilterIdle(f: seq<byte>)
    requires forall k :: 0 <= k < |f| ==> !IsSpace(f[k])
    ensures Filter(f) == f
  {
    hide IsSpace;
    if f != [] {
      FilterIdle(f[1..]);
    }
  }

  lemma {:induction false} FilterSpaces(f: seq<byte>)
    ensures Filter(f) == [] <==> forall k :: 0 <= k < |f| ==> IsSpace(f[k])
  {
    hide IsSpace;
    if f != [] {
      FilterSpaces(f[1..]);
      assert f[0] == f[0] && forall k :: 1 <= k < |f| ==> f[k] == f[1..][k - 1];
    }
  }

  /** A whole quantum at the front does not affect acceptance of the rest. */
  lemma AcceptedAfterQuad(f: seq<byte>)
    requires OpensWithQuad(f)
    ensures Accepted(f) <==> Accepted(f[4..])
  {
    var g := f[4..];
    assert |f| == |g| + 4 && forall k :: 0 <= k < |g| ==> g[k] == f[k + 4];
    forall pads: nat | pads <= 2 ensures PaddedBy(f, pads) <==> PaddedBy(g, pads) {
      if PaddedBy(f, pads) {
        assert f[3] != PAD;
      }
      if PaddedBy(g, pads) {
        forall k | 0 <= k < |f| - pads ensures InAlphabet(f[k]) {
          if 4 <= k { assert f[k] == g[k - 4]; }
        }
        forall k | |f| - pads <= k < |f| ensures f[k] == PAD {
          assert f[k] == g[k - 4];
        }
      }
    }
  }

  /** Without a whole quantum at the front, only the empty text and one padded quantum are accepted. */
  lemma AcceptedLast(f: seq<byte>)
    requires !OpensWithQuad(f)
    ensures Accepted(f) <==>
            f == [] || (|f| == 4 && InAlphabet(f[0]) && InAlphabet(f[1]) && f[3] == PAD
                        && (f[2] == PAD || InAlphabet(f[2])))
  {
    if Accepted(f) && f != [] {
      var pads: nat :| pads <= 2 && PaddedBy(f, pads);
    } else if |f| == 4 && InAlphabet(f[0]) && InAlphabet(f[1]) && f[3] == PAD {
      if f[2] == PAD {
        assert PaddedBy(f, 2);
      } else if InAlphabet(f[2]) {
        assert PaddedBy(f, 1);
      }
    }
  }

  ghost predicate IsLetter(c: byte) {
    exists v: sextet :: c == Symbol(v)
  }

  ghost predicate LettersThenPads(f: seq<byte>, n: nat) {
    && n <= |f| <= n + 2
    && (forall k :: 0 <= k < n ==> IsLetter(f[k]))
    && (forall k :: n <= k < |f| ==> f[k] == 61)
  }

  lemma PaddedIff(f: seq<byte>, pads: nat)
    requires pads <= 2
    ensures PaddedBy(f, pads) <==> pads <= |f| && LettersThenPads(f, |f| - pads)
  {
    forall c: byte ensures InAlphabet(c) <==> IsLetter(c) {
      if InAlphabet(c) {
        SymbolOfSextet(c);
      }
    }
    hide InAlphabet, IsLetter;
  }

  /** Accepted are whole quanta of table characters, up to two of which, at the very end, may be "=" instead. */
  lemma AcceptedIff(f: seq<byte>)
    ensures Accepted(f) <==> |f| % 4 == 0 && exists n: nat :: LettersThenPads(f, n)
  {
    PaddedIff(f, 0);
    PaddedIff(f, 1);
    PaddedIff(f, 2);
    hide PaddedBy;
    if n: nat :| LettersThenPads(f, n) {
      assert n == |f| || n == |f| - 1 || n == |f| - 2;
    }
  }

  /** The number of closing '=' of an accepted text. */
  function Pads(f: seq<byte>): nat {
    if 2 <= |f| && f[|f| - 2] == PAD then 2 else if 1 <= |f| && f[|f| - 1] == PAD then 1 else 0
  }

  /** An accepted text decodes to three octets for each four characters, less one for each '='. */
  lemma {:induction false} DecodedLength(f: seq<byte>)
    requires Accepted(f)
    ensures PaddedBy(f, Pads(f))
    ensures |Emitted(f)| == |f| / 4 * 3 - Pads(f)
  {
    var pads: nat :| pads <= 2 && PaddedBy(f, pads);
    if OpensWithQuad(f) {
      AcceptedAfterQuad(f);
      DecodedLength(f[4..]);
    } else {
      AcceptedLast(f);
    }
  }

  lemma FilterFour(f: seq<byte>)
    requires |f| == 4 && !IsSpace(f[0]) && !IsSpace(f[1]) && !IsSpace(f[2]) && !IsSpace(f[3])
    ensures Filter(f) == f
  {
    hide IsSpace;
    FilterIdle(f);
  }

  lemma EmittedPadded(f: seq<byte>)
    requires |f| == 4 && InAlphabet(f[0]) && InAlphabet(f[1]) && f[3] == PAD
    ensures f[2] == PAD ==> Emitted(f) == [Octet0(Sextet(f[0]), Sextet(f[1]))]
    ensures InAlphabet(f[2]) ==>
              Emitted(f) == [Octet0(Sextet(f[0]), Sextet(f[1])), Octet1(Sextet(f[1]), Sextet(f[2]))]
  {
    assert Sextet(PAD) == -1;
    hide Sextet, Octet0, Octet1;
  }

  lemma DecodeTwoSymbols(u: sextet, v: sextet)
    ensures var f := [Symbol(u), Symbol(v), PAD, PAD];
      Filter(f) == f && Accepted(f) && Emitted(f) == [Octet0(u, v)]
  {
    assert Sextet(PAD) == -1;
    hide Symbol, Sextet, Accepted, Filter, Emitted, Octet0;
    var f := [Symbol(u), Symbol(v), PAD, PAD];
    FilterFour(f);
    AcceptedLast(f);
    EmittedPadded(f);
  }

  lemma DecodeThreeSymbols(u: sextet, v: sextet, w: sextet)
    ensures var f := [Symbol(u), Symbol(v), Symbol(w), PAD];
      Filter(f) == f && Accepted(f) && Emitted(f) == [Octet0(u, v), Octet1(v, w)]
  {
    assert Sextet(PAD) == -1;
    hide Symbol, Sextet, Accepted, Filter, Emitted, Octet0, Octet1;
    var f := [Symbol(u), Symbol(v), Symbol(w), PAD];
    FilterFour(f);
    AcceptedLast(f);
    EmittedPadded(f);
  }

  lemma DecodeQuad(u: sextet, v: sextet, w: sextet, x: sextet, g: seq<byte>)
    requires Filter(g) == g && Accepted(g)
    ensures var f := [Symbol(u), Symbol(v), Symbol(w), Symbol(x)] + g;
      Filter(f) == f && Accepted(f) && Emitted(f) == QuadOctets(u, v, w, x) + Emitted(g)
  {
    hide Symbol, Sextet, Accepted, Filter, QuadOctets;
    var q := [Symbol(u), Symbol(v), Symbol(w), Symbol(x)];
    var f := q + g;
    assert f[4..] == g;
    AcceptedAfterQuad(f);
    FilterConcat(q, g);
    FilterFour(q);
  }

  lemma DecodeNothing()
    ensures Filter([]) == [] && Accepted([]) && Emitted([]) == []
  {
    assert PaddedBy([], 0);
  }

  lemma TailOctets(a: byte, b: byte)
    ensures Octet0(Group0(a), Group1(a, b)) == a && Octet1(Group1(a, b), Group2(b, 0)) == b
  {
  }

  /** What encoding prints, decoding accepts and undoes. */
  lemma {:induction false} DecodeEncode(d: seq<byte>)
    ensures Filter(Encode(d)) == Encode(d)
    ensures Accepted(Encode(d))
    ensures Emitted(Encode(d)) == d
  {
    hide Symbol, Sextet, Accepted, Filter, Emitted, Group0, Group1, Group2, Group3, Octet0, Octet1, Octet2;
    if d == [] {
      DecodeNothing();
    } else if |d| == 1 {
      TailOctets(d[0], 0);
      DecodeTwoSymbols(Group0(d[0]), Group1(d[0], 0));
    } else if |d| == 2 {
      TailOctets(d[0], d[1]);
      DecodeThreeSymbols(Group0(d[0]), Group1(d[0], d[1]), Group2(d[1], 0));
    } else {
      OctetsOfGroups(d[0], d[1], d[2]);
      DecodeEncode(d[3..]);
      DecodeQuad(Group0(d[0]), Group1(d[0], d[1]), Group2(d[1], d[2]), Group3(d[2]), Encode(d[3..]));
      assert d == [d[0], d[1], d[2]] + d[3..];
    }
  }

  /** Padding follows an alphabet character. */
  lemma LastSymbol(f: seq<byte>)
    requires Accepted(f) && Pads(f) != 0
    ensures 4 <= |f| && InAlphabet(f[|f| - 1 - Pads(f)])
  {
    DecodedLength(f);
  }

  /** An accepted text with the discarded bits cleared: its canonical form in the sense of RFC 4648 section 3.5. */
  ghost function Canonical(f: seq<byte>): seq<byte>
    requires Accepted(f)
  {
    if Pads(f) == 0 then f
    else
      LastSymbol(f);
      var k := |f| - 1 - Pads(f);
      f[k := Symbol(Cleared(Sextet(f[k]), Pads(f)))]
  }

  lemma EncodeDecodeLast(f: seq<byte>)
    requires Accepted(f) && !OpensWithQuad(f)
    ensures Encode(Emitted(f)) == Canonical(f)
  {
    AcceptedLast(f);
    if f != [] {
      assert Sextet(PAD) == -1;
      hide Symbol, Sextet, Accepted, Cleared, Emitted, Group0, Group1, Group2, Octet0, Octet1;
      EmittedPadded(f);
      GroupsOfOctets(Sextet(f[0]), Sextet(f[1]), if f[2] == PAD then 0 else Sextet(f[2]), 0);
      SymbolOfSextet(f[0]);
      SymbolOfSextet(f[1]);
    }
  }

  lemma CanonicalAfterQuad(f: seq<byte>)
    requires Accepted(f) && OpensWithQuad(f)
    ensures Accepted(f[4..]) && Canonical(f) == f[..4] + Canonical(f[4..])
  {
    var g := f[4..];
    AcceptedAfterQuad(f);
    PadsAfterQuad(f);
    hide Symbol, Sextet, Accepted, Cleared, Pads, OpensWithQuad;
    assert f == f[..4] + g;
    if Pads(f) != 0 {
      LastSymbol(f);
      LastSymbol(g);
      UpdateAfterPrefix(f[..4], g, |g| - 1 - Pads(g), Symbol(Cleared(Sextet(g[|g| - 1 - Pads(g)]), Pads(g))));
    }
  }

  lemma UpdateAfterPrefix(p: seq<byte>, g: seq<byte>, k: nat, c: byte)
    requires k < |g|
    ensures (p + g)[|p| + k := c] == p + g[k := c]
  {
  }

  lemma PadsAfterQuad(f: seq<byte>)
    requires Accepted(f) && OpensWithQuad(f)
    ensures Pads(f) == Pads(f[4..])
  {
    if |f| < 6 {
      assert |f| == 4;
    }
  }

  /** Encoding what a text decodes to gives back the text's canonical form. */
  lemma {:induction false} EncodeDecode(f: seq<byte>)
    requires Accepted(f)
    ensures Encode(Emitted(f)) == Canonical(f)
  {
    hide Symbol, Sextet, Accepted, Canonical, Group0, Group1, Group2, Group3, Octet0, Octet1, Octet2;
    if OpensWithQuad(f) {
      AcceptedAfterQuad(f);
      EncodeDecode(f[4..]);
      CanonicalAfterQuad(f);
      GroupsOfOctets(Sextet(f[0]), Sextet(f[1]), Sextet(f[2]), Sextet(f[3]));
      SymbolOfSextet(f[0]);
      SymbolOfSextet(f[1]);
      SymbolOfSextet(f[2]);
      SymbolOfSextet(f[3]);
      assert Emitted(f)[3..] == Emitted(f[4..]);
      assert f[..4] == [f[0], f[1], f[2], f[3]];
    } else {
      EncodeDecodeLast(f);
    }
  }

  /** Does `f` leave the discarded low bits zero? */
  ghost predicate IsCanonical(f: seq<byte>)
    requires Accepted(f)
  {
    Pads(f) == 0 || (
      LastSymbol(f);
      var v := Sextet(f[|f| - 1 - Pads(f)]);
      Cleared(v, Pads(f)) == v)
  }

  /** Decoding splits behind whole quanta, also when it stops later on, */
  lemma {:induction false} EmittedSplit(a: seq<byte>, b: seq<byte>)
    requires |a| % 4 == 0 && PaddedBy(a, 0)
    ensures Emitted(a + b) == Emitted(a) + Emitted(b)
  {
    hide Sextet, Octet0, Octet1, Octet2;
    if a == [] {
      assert a + b == b;
    } else {
      var u, v, w, x := Sextet(a[0]), Sextet(a[1]), Sextet(a[2]), Sextet(a[3]);
      assert OpensWithQuad(a);
      assert (a + b)[4..] == a[4..] + b;
      EmittedSplit(a[4..], b);
      Associate(QuadOctets(u, v, w, x), Emitted(a[4..]), Emitted(b));
    }
  }

  /** where only a quantum with its first "=" third or fourth still yields octets, as if the text ended with it. */
  lemma EmittedRest(f: seq<byte>)
    requires !OpensWithQuad(f)
    ensures Emitted(f) ==
              if |f| >= 3 && InAlphabet(f[0]) && InAlphabet(f[1]) && f[2] == 61 then Emitted([f[0], f[1], 61, 61])
              else if |f| >= 4 && InAlphabet(f[0]) && InAlphabet(f[1]) && InAlphabet(f[2]) && f[3] == 61 then
                Emitted([f[0], f[1], f[2], 61])
              else []
  {
    assert Sextet(PAD) == -1;
    hide Sextet, Octet0, Octet1;
  }

  /** Encoding undoes decoding on exactly the canonical texts. */
  lemma EncodeDecodeIffCanonical(f: seq<byte>)
    requires Accepted(f)
    ensures Encode(Emitted(f)) == f <==> IsCanonical(f)
  {
    EncodeDecode(f);
    if Pads(f) != 0 {
      LastSymbol(f);
      var k := |f| - 1 - Pads(f);
      SymbolOfSextet(f[k]);
      hide Sextet, Symbol, Accepted;
      assert Canonical(f) == f <==> Canonical(f)[k] == f[k];
    }
  }
}
