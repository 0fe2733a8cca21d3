/** The two buffer routines of utility/base64.c, proved against the functions of module Base64. */
module Base64Codec {
  import opened Bytes
  import opened Base64

  /** The `int32_t` that encoding `len` octets returns: the output index is a `uint32_t`. */
  function EncodeReturn(len: uint32): int {
    var n := Wrap32(EncodedLength(len));
    if n > INT_MAX then -1 else n
  }

  /** The returned length is right on exactly the inputs of at most 3 * (2^29 - 1) octets. */
  lemma EncodeReturnIsLength(len: uint32)
    ensures EncodeReturn(len) == EncodedLength(len) <==> len <= 1610612733
    ensures 1610612733 < len <= 3221225469 ==> EncodeReturn(len) == -1
    ensures 3221225469 < len ==> EncodeReturn(len) == EncodedLength(len) - UINT32_LIMIT
  {
  }

  /** 3221225472 octets overflow the index: the routine reports success and a length of zero. */
  lemma EncodeWraps()
    ensures EncodeReturn(3221225472) == 0
  {
  }

  lemma GroupsOfValue(a: byte, b: byte, c: byte)
    ensures var val := a * 65536 + b * 256 + c;
      && val / 262144 % 64 == Group0(a) && val / 4096 % 64 == Group1(a, b)
      && val / 64 % 64 == Group2(b, c) && val % 64 == Group3(c)
  {
    HighGroups(a, b, c);
    LowGroups(a, b, c);
  }

  lemma HighGroups(a: byte, b: byte, c: byte)
    ensures var val := a * 65536 + b * 256 + c;
      val / 262144 % 64 == Group0(a) && val / 4096 % 64 == Group1(a, b)
  {
    var val := a * 65536 + b * 256 + c;
    Quotient(val, 262144, a / 4, a % 4 * 65536 + b * 256 + c);
    Quotient(val, 4096, a * 16 + b / 16, b % 16 * 256 + c);
    Quotient(a * 16 + b / 16, 64, a / 4, a % 4 * 16 + b / 16);
  }

  lemma LowGroups(a: byte, b: byte, c: byte)
    ensures var val := a * 65536 + b * 256 + c;
      val / 64 % 64 == Group2(b, c) && val % 64 == Group3(c)
  {
    var val := a * 65536 + b * 256 + c;
    Quotient(val, 64, a * 1024 + b * 4 + c / 64, c % 64);
    Quotient(a * 1024 + b * 4 + c / 64, 64, a * 16 + b / 16, b % 16 * 4 + c / 64);
  }

  lemma OctetsOfValue(u: sextet, v: sextet, w: sextet, x: sextet)
    ensures var val := u * 262144 + v * 4096 + w * 64 + x;
      && val / 65536 % 256 == Octet0(u, v) && val / 256 % 256 == Octet1(v, w) && val % 256 == Octet2(w, x)
  {
    var val := u * 262144 + v * 4096 + w * 64 + x;
    Quotient(val, 65536, u * 4 + v / 16, v % 16 * 4096 + w * 64 + x);
    Quotient(val, 256, u * 1024 + v * 16 + w / 4, w % 4 * 64 + x);
    Quotient(u * 1024 + v * 16 + w / 4, 256, u * 4 + v / 16, v % 16 * 16 + w / 4);
  }

  method PutFour(output: array<byte>, at: nat, c0: byte, c1: byte, c2: byte, c3: byte)
    requires at + 4 <= output.Length
    modifies output
    ensures output[..at + 4] == old(output[..at]) + [c0, c1, c2, c3]
    ensures output[at + 4..] == old(output[at + 4..])
  {
    output[at] := c0;
    output[at + 1] := c1;
    output[at + 2] := c2;
    output[at + 3] := c3;
  }

  /**
   * What a buffer holds after `e` has been written to it through a `uint32_t` index: `e` in front, but
   * beyond 2^32 octets the end of `e` lies over its beginning.
   */
  function Overlaid(e: seq<byte>, before: seq<byte>): (out: seq<byte>)
    requires |e| <= |before| || UINT32_LIMIT <= |before|
    requires |e| <= 2 * UINT32_LIMIT
    ensures |out| == |before|
  {
    if |e| <= UINT32_LIMIT then e + before[|e|..]
    else e[UINT32_LIMIT..] + e[|e| - UINT32_LIMIT..UINT32_LIMIT] + before[UINT32_LIMIT..]
  }

  /** The characters that encoding reports, in front of the buffer: none when it reports failure. */
  function Reported(d: seq<byte>): seq<byte>
    requires |d| < UINT32_LIMIT
  {
    if EncodeReturn(|d|) <= 0 then []
    else if |Encode(d)| <= UINT32_LIMIT then Encode(d)
    else Encode(d)[UINT32_LIMIT..]
  }

  /** They are as many as are reported. */
  lemma ReportedLength(d: seq<byte>)
    requires |d| < UINT32_LIMIT
    ensures |Reported(d)| == if EncodeReturn(|d|) < 0 then 0 else EncodeReturn(|d|)
  {
    hide Encode, EncodeReturn, EncodedLength;
    EncodeReturnIsLength(|d|);
    LongLength(|d|);
  }

  lemma LongLength(n: nat)
    ensures 3221225469 < n ==> UINT32_LIMIT <= EncodedLength(n)
    ensures n <= 1610612733 ==> EncodedLength(n) < UINT32_LIMIT
  {
  }

  lemma ReportedIs(d: seq<byte>, before: seq<byte>)
    requires |d| < UINT32_LIMIT && |Encode(d)| <= 2 * UINT32_LIMIT
    requires |Encode(d)| <= |before| || UINT32_LIMIT <= |before|
    requires EncodeReturn(|d|) > 0
    ensures EncodeReturn(|d|) <= |before| && Overlaid(Encode(d), before)[..EncodeReturn(|d|)] == Reported(d)
  {
    hide Encode;
    EncodeReturnIsLength(|d|);
  }

  lemma OverlaidAt(e: seq<byte>, before: seq<byte>, j: nat)
    requires |e| <= |before| || UINT32_LIMIT <= |before|
    requires |e| <= 2 * UINT32_LIMIT && j < |before|
    ensures Overlaid(e, before)[j] ==
              if j + UINT32_LIMIT < |e| then e[j + UINT32_LIMIT]
              else if j < |e| && j < UINT32_LIMIT then e[j]
              else before[j]
  {
  }

  lemma OverlayAt(e: seq<byte>, q: seq<byte>, before: seq<byte>, ix: nat, j: nat)
    requires |q| == 4 && |e| + 4 <= 2 * UINT32_LIMIT && j < |before|
    requires |e| + 4 <= |before| || UINT32_LIMIT <= |before|
    requires ix == if |e| < UINT32_LIMIT then |e| else |e| - UINT32_LIMIT
    requires ix + 4 <= UINT32_LIMIT
    ensures Overlaid(e + q, before)[j] == if ix <= j < ix + 4 then q[j - ix] else Overlaid(e, before)[j]
  {
    hide Overlaid;
    OverlaidAt(e, before, j);
    OverlaidAt(e + q, before, j);
  }

  /** Four more octets at the wrapped index. */
  lemma OverlayFour(e: seq<byte>, q: seq<byte>, before: seq<byte>, out: seq<byte>, ix: nat)
    requires |q| == 4 && |e| + 4 <= 2 * UINT32_LIMIT
    requires |e| + 4 <= |before| || UINT32_LIMIT <= |before|
    requires ix == if |e| < UINT32_LIMIT then |e| else |e| - UINT32_LIMIT
    requires ix + 4 <= UINT32_LIMIT && ix + 4 <= |out| == |before|
    requires out[..ix + 4] == Overlaid(e, before)[..ix] + q && out[ix + 4..] == Overlaid(e, before)[ix + 4..]
    ensures out == Overlaid(e + q, before)
  {
    hide Overlaid;
    forall j | 0 <= j < |out| ensures out[j] == Overlaid(e + q, before)[j] {
      OverlayAt(e, q, before, ix, j);
      if j < ix + 4 {
        assert out[j] == out[..ix + 4][j];
      } else {
        assert out[j] == out[ix + 4..][j - ix - 4];
      }
    }
  }

  lemma BlockIndex(k: nat, remaining: int)
    requires 0 <= remaining && 3 * k + remaining < UINT32_LIMIT
    ensures Wrap32(4 * k) == if 4 * k < UINT32_LIMIT then 4 * k else 4 * k - UINT32_LIMIT
    ensures 0 <= Wrap32(4 * k) <= UINT32_LIMIT - 4 && Wrap32(4 * k) <= 4 * k
    ensures Wrap32(Wrap32(4 * k) + 4) == Wrap32(4 * (k + 1))
    ensures 3 <= remaining ==> 4 * k + 4 <= EncodedLength(3 * k + remaining)
    ensures 0 < remaining < 3 ==> 4 * k + 4 == EncodedLength(3 * k + remaining)
    ensures remaining == 0 ==> 4 * k == EncodedLength(3 * k + remaining)
    ensures 4 * k + 4 <= 2 * UINT32_LIMIT
  {
  }

  /** `k` blocks of `d` lie over the buffer's first contents. */
  ghost predicate Written(d: seq<byte>, before: seq<byte>, out: seq<byte>, k: nat) {
    && 3 * k <= |d| < UINT32_LIMIT && (4 * k <= |before| || UINT32_LIMIT <= |before|)
    && 4 * k <= 2 * UINT32_LIMIT && |Encode(d[..3 * k])| == 4 * k
    && out == Overlaid(Encode(d[..3 * k]), before)
  }

  lemma WrittenAtStart(d: seq<byte>, out: seq<byte>)
    requires |d| < UINT32_LIMIT
    ensures Written(d, out, out, 0)
  {
    assert d[..0] == [] && [] + out[0..] == out;
  }

  lemma WriteBlock(d: seq<byte>, before: seq<byte>, out: seq<byte>, out': seq<byte>, k: nat, ix: nat)
    requires 3 * k + 3 <= |d| && Written(d, before, out, k) && ix == Wrap32(4 * k)
    requires EncodedLength(|d|) <= |before| || UINT32_LIMIT <= |before|
    requires ix + 4 <= |out'| == |out|
    requires out'[..ix + 4] == out[..ix] + EncodeBlock(d[3 * k], d[3 * k + 1], d[3 * k + 2])
    requires out'[ix + 4..] == out[ix + 4..]
    ensures Written(d, before, out', k + 1)
  {
    hide Encode, EncodeBlock, EncodedLength, Overlaid, Wrap32;
    BlockIndex(k, |d| - 3 * k);
    EncodeMore(d, k);
    OverlayFour(Encode(d[..3 * k]), EncodeBlock(d[3 * k], d[3 * k + 1], d[3 * k + 2]), before, out', ix);
  }

  lemma EncodeMore(d: seq<byte>, k: nat)
    requires 3 * k + 3 <= |d|
    ensures Encode(d[..3 * (k + 1)]) == Encode(d[..3 * k]) + EncodeBlock(d[3 * k], d[3 * k + 1], d[3 * k + 2])
  {
    hide Encode, EncodeBlock;
    var c := d[..3 * (k + 1)];
    EncodeSplit(c, k);
    assert c[..3 * k] == d[..3 * k] && c[3 * k..] == [d[3 * k], d[3 * k + 1], d[3 * k + 2]];
    EncodeOne(d[3 * k], d[3 * k + 1], d[3 * k + 2]);
  }

  lemma EncodeOne(a: byte, b: byte, c: byte)
    ensures Encode([a, b, c]) == EncodeBlock(a, b, c)
  {
    hide EncodeBlock;
    assert [a, b, c][3..] == [] && EncodeBlock(a, b, c) + [] == EncodeBlock(a, b, c);
  }

  lemma WriteTail(d: seq<byte>, before: seq<byte>, out: seq<byte>, out': seq<byte>, k: nat, ix: nat)
    requires 3 * k < |d| < 3 * k + 3 && Written(d, before, out, k) && ix == Wrap32(4 * k)
    requires EncodedLength(|d|) <= |before| || UINT32_LIMIT <= |before|
    requires ix + 4 <= |out'| == |out|
    requires out'[..ix + 4] == out[..ix] + Encode(d[3 * k..]) && out'[ix + 4..] == out[ix + 4..]
    ensures |Encode(d)| <= 2 * UINT32_LIMIT && out' == Overlaid(Encode(d), before)
  {
    hide EncodedLength, Overlaid, Encode, Wrap32;
    BlockIndex(k, |d| - 3 * k);
    EncodeSplit(d, k);
    TailLength(d[3 * k..]);
    OverlayFour(Encode(d[..3 * k]), Encode(d[3 * k..]), before, out', ix);
  }

  lemma TailLength(t: seq<byte>)
    requires 0 < |t| < 3
    ensures |Encode(t)| == 4
  {
  }

  /** One turn of the block loop; shifts and masks of `val` are written as division and remainder. */
  method PutBlock(input: array<byte>, inIx: nat, output: array<byte>, outIx: nat)
    requires inIx + 3 <= input.Length && outIx + 4 <= output.Length
    modifies output
    ensures output[..outIx + 4] ==
            old(output[..outIx]) + old(EncodeBlock(input[inIx], input[inIx + 1], input[inIx + 2]))
    ensures output[outIx + 4..] == old(output[outIx + 4..])
  {
    hide Symbol, Sextet, Group0, Group1, Group2, Group3;
    var a: int, b: int, c: int := input[inIx], input[inIx + 1], input[inIx + 2];
    var val := a * 65536 + b * 256 + c;
    GroupsOfValue(a, b, c);
    PutFour(output, outIx, Symbol(val / 262144 % 64), Symbol(val / 4096 % 64),
            Symbol(val / 64 % 64), Symbol(val % 64));
  }

  /** The block loop of noxtls_base64_encode. */
  method EncodeBlocks(input: array<byte>, len: uint32, output: array<byte>)
    returns (ghost k: nat, inIx: int, outIx: int, remaining: int)
    requires len <= input.Length
    requires EncodedLength(len) <= output.Length || UINT32_LIMIT <= output.Length
    modifies output
    ensures 0 <= remaining < 3 && inIx == 3 * k && inIx + remaining == len && outIx == Wrap32(4 * k)
    ensures input != output ==> Written(input[..len], old(output[..]), output[..], k)
  {
    hide Written, Encode, EncodeBlock;
    ghost var d, before := input[..len], output[..];
    inIx, outIx, remaining, k := 0, 0, len, 0;
    WrittenAtStart(d, before);
    BlockIndex(0, 0);
    hide EncodedLength, Wrap32;
    while remaining >= 3
      invariant 0 <= remaining && inIx == 3 * k && inIx + remaining == len
      invariant outIx == Wrap32(4 * k)
      invariant input != output ==> input[..len] == d && Written(d, before, output[..], k)
    {
      BlockIndex(k, remaining);
      ghost var out := output[..];
      PutBlock(input, inIx, output, outIx);
      if input != output {
        WriteBlock(d, before, out, output[..], k, outIx);
      }
      inIx := inIx + 3;
      outIx := Wrap32(outIx + 4);
      remaining := remaining - 3;
      k := k + 1;
    }
  }

  /** noxtls_base64_encode */
  method EncodeBuffer(input: array?<byte>, len: uint32, output: array?<byte>) returns (r: int)
    requires input != null ==> len <= input.Length
    requires output != null ==> EncodedLength(len) <= output.Length || UINT32_LIMIT <= output.Length
    modifies output
    ensures input == null || output == null ==> r == -1
    ensures input != null && output != null ==> r == EncodeReturn(len)
    ensures input != null && output != null && input != output ==>
              && |Encode(input[..len])| <= 2 * UINT32_LIMIT
              && output[..] == Overlaid(Encode(input[..len]), old(output[..]))
    ensures input != null && output != null && input != output && len <= 1610612733 ==>
              && output[..EncodedLength(len)] == Encode(input[..len])
              && output[EncodedLength(len)..] == old(output[EncodedLength(len)..])
  {
    if input == null { return -1; }
    if output == null { return -1; }
    if len == 0 {
      assert input[..len] == [] && Encode([]) == [];
      return 0;
    }
    ghost var k: nat;
    var inIx: int, outIx: int, remaining: int;
    k, inIx, outIx, remaining := EncodeBlocks(input, len, output);
    outIx := EncodeTail(input, len, output, k, inIx, outIx, remaining, old(output[..]));
    hide Encode, Written;
    if outIx > INT_MAX { return -1; }
    return outIx;
  }

  /** What noxtls_base64_encode does after the block loop. */
  method EncodeTail(input: array<byte>, len: uint32, output: array<byte>,
                    ghost k: nat, inIx: int, outIx: int, remaining: int, ghost before: seq<byte>)
    returns (outIx': int)
    requires len <= input.Length && |before| == output.Length
    requires EncodedLength(len) <= output.Length || UINT32_LIMIT <= output.Length
    requires 0 <= remaining < 3 && inIx == 3 * k && inIx + remaining == len && outIx == Wrap32(4 * k)
    requires input != output ==> Written(input[..len], before, output[..], k)
    modifies output
    ensures outIx' == Wrap32(EncodedLength(len))
    ensures input != output ==>
              && |Encode(input[..len])| <= 2 * UINT32_LIMIT
              && output[..] == Overlaid(Encode(input[..len]), before)
  {
    hide Symbol, Sextet, Group0, Group1, Group2, Group3, Encode, Overlaid;
    BlockIndex(k, remaining);
    ghost var d, out := input[..len], output[..];
    hide EncodedLength, Wrap32;
    outIx' := outIx;
    if remaining == 2 {
      assert d[3 * k] == input[inIx] && d[3 * k + 1] == input[inIx + 1] && |d[3 * k..]| == 2;
      assert d[3 * k..] == [input[inIx], input[inIx + 1]];
      PutPair(input, inIx, output, outIx);
      outIx' := Wrap32(outIx + 4);
    } else if remaining == 1 {
      assert d[3 * k] == input[inIx] && |d[3 * k..]| == 1;
      assert d[3 * k..] == [input[inIx]];
      PutSingle(input, inIx, output, outIx);
      outIx' := Wrap32(outIx + 4);
    } else {
      assert d[..3 * k] == d;
    }
    if input != output && remaining != 0 {
      WriteTail(d, before, out, output[..], k, outIx);
    }
  }

  /** The two-octet tail. */
  method PutPair(input: array<byte>, inIx: nat, output: array<byte>, outIx: nat)
    requires inIx + 2 <= input.Length && outIx + 4 <= output.Length
    modifies output
    ensures output[..outIx + 4] == old(output[..outIx]) + old(Encode([input[inIx], input[inIx + 1]]))
    ensures output[outIx + 4..] == old(output[outIx + 4..])
  {
    hide Symbol, Sextet, Group0, Group1, Group2, Group3;
    var a: int, b: int := input[inIx], input[inIx + 1];
    var val := a * 65536 + b * 256;
    GroupsOfValue(a, b, 0);
    PutFour(output, outIx, Symbol(val / 262144 % 64), Symbol(val / 4096 % 64), Symbol(val / 64 % 64), PAD);
  }

  /** The one-octet tail. */
  method PutSingle(input: array<byte>, inIx: nat, output: array<byte>, outIx: nat)
    requires inIx + 1 <= input.Length && outIx + 4 <= output.Length
    modifies output
    ensures output[..outIx + 4] == old(output[..outIx]) + old(Encode([input[inIx]]))
    ensures output[outIx + 4..] == old(output[outIx + 4..])
  {
    hide Symbol, Sextet, Group0, Group1, Group2, Group3;
    var a: int := input[inIx];
    var val := a * 65536;
    GroupsOfValue(a, 0, 0);
    PutFour(output, outIx, Symbol(val / 262144 % 64), Symbol(val / 4096 % 64), PAD, PAD);
  }

  // ----- Decoding -----

  /** May a quantum whose missing characters are -1 be written? */
  ghost predicate QuantumOk(a: int, b: int, c: int, d: int) {
    0 <= a && 0 <= b && (d == -1 || 0 <= d) && (0 <= c || (c == -1 && d == -1))
  }

  ghost function QuantumOctets(a: int, b: int, c: int, d: int): seq<byte>
    requires QuantumOk(a, b, c, d) && a < 64 && b < 64 && c < 64 && d < 64
  {
    if c == -1 then [Octet0(a, b)]
    else if d == -1 then [Octet0(a, b), Octet1(b, c)]
    else QuadOctets(a, b, c, d)
  }

  /** noxtls_base64_emit_quantum */
  method EmitQuantum(s: array<int>, output: array<byte>, outIx: nat) returns (rc: int, outIx': nat)
    requires s.Length == 4 && forall j :: 0 <= j < 4 ==> -1 <= s[j] < 64
    requires QuantumOk(s[0], s[1], s[2], s[3]) ==>
               outIx + |QuantumOctets(s[0], s[1], s[2], s[3])| <= output.Length
    modifies output
    ensures rc == if QuantumOk(s[0], s[1], s[2], s[3]) then 0 else -1
    ensures rc == 0 ==>
              && outIx' == outIx + |QuantumOctets(s[0], s[1], s[2], s[3])|
              && output[..outIx'] == old(output[..outIx]) + QuantumOctets(s[0], s[1], s[2], s[3])
              && output[outIx'..] == old(output[outIx'..])
    ensures rc != 0 ==> outIx' == outIx && output[..] == old(output[..])
  {
    hide Octet0, Octet1, Octet2;
    var a, b, c, d := s[0], s[1], s[2], s[3];
    var ix := outIx;
    if a < 0 || b < 0 { return -1, outIx; }
    if d == -1 {
      if c == -1 {
        var val := a * 262144 + b * 4096;
        OctetsOfValue(a, b, 0, 0);
        output[ix] := val / 65536 % 256;
        ix := ix + 1;
      } else {
        if c < 0 { return -1, outIx; }
        var val := a * 262144 + b * 4096 + c * 64;
        OctetsOfValue(a, b, c, 0);
        output[ix] := val / 65536 % 256;
        ix := ix + 1;
        output[ix] := val / 256 % 256;
        ix := ix + 1;
      }
    } else {
      if c < 0 || d < 0 { return -1, outIx; }
      var val := a * 262144 + b * 4096 + c * 64 + d;
      OctetsOfValue(a, b, c, d);
      output[ix] := val / 65536 % 256;
      ix := ix + 1;
      output[ix] := val / 256 % 256;
      ix := ix + 1;
      output[ix] := val % 256;
      ix := ix + 1;
    }
    return 0, ix;
  }

  /** The `int32_t` that decoding a text with filtered form `f` returns. */
  ghost function DecodeReturn(f: seq<byte>): int {
    if Accepted(f) && |Emitted(f)| <= INT_MAX then |Emitted(f)| else -1
  }

  /** What decoding a text with filtered form `f` does to the output buffer, accepted or not. */
  ghost predicate Decoded(f: seq<byte>, r: int, before: seq<byte>, after: seq<byte>) {
    && r == DecodeReturn(f)
    && |Emitted(f)| <= |before|
    && after == Emitted(f) + before[|Emitted(f)|..]
  }

  /** Any layout of what encoding printed decodes to the data, on the whole range where encoding succeeds. */
  lemma RoundTrip(d: seq<byte>, text: seq<byte>)
    requires |d| <= 1610612733 && Filter(text) == Encode(d)
    ensures EncodeReturn(|d|) == |Encode(d)|
    ensures DecodeReturn(Filter(text)) == |d| && Emitted(Filter(text)) == d
  {
    hide Accepted, Filter, Encode, Emitted;
    DecodeEncode(d);
  }

  /** Acceptance and the returned length, from the filtered text alone. */
  lemma DecodeReturnIs(f: seq<byte>)
    ensures DecodeReturn(f) == if Accepted(f) && |f| / 4 * 3 - Pads(f) <= INT_MAX then |f| / 4 * 3 - Pads(f) else -1
  {
    if Accepted(f) {
      DecodedLength(f);
    }
  }

  /** Decoding has written `done`, holds the characters `held` of a quantum, and `rest` is still unread. */
  ghost predicate Decoding(f: seq<byte>, done: seq<byte>, held: seq<byte>, rest: seq<byte>) {
    && |held| < 4
    && (forall j :: 0 <= j < |held| ==> InAlphabet(held[j]))
    && Emitted(f) == done + Emitted(held + rest)
    && (Accepted(f) <==> Accepted(held + rest))
  }

  lemma DecodingStart(f: seq<byte>)
    ensures Decoding(f, [], [], f)
  {
    assert [] + f == f;
  }

  lemma DecodingHold(f: seq<byte>, done: seq<byte>, held: seq<byte>, c: byte, rest: seq<byte>)
    requires Decoding(f, done, held, [c] + rest) && InAlphabet(c) && |held| < 3
    ensures Decoding(f, done, held + [c], rest)
  {
    assert held + ([c] + rest) == held + [c] + rest;
  }

  lemma DecodingQuad(f: seq<byte>, done: seq<byte>, held: seq<byte>, c: byte, rest: seq<byte>)
    requires Decoding(f, done, held, [c] + rest) && InAlphabet(c) && |held| == 3
    ensures Decoding(f, done + QuadOctets(Sextet(held[0]), Sextet(held[1]), Sextet(held[2]), Sextet(c)), [], rest)
  {
    hide Sextet, Octet0, Octet1, Octet2, Accepted;
    var g := held + ([c] + rest);
    assert g[4..] == rest && [] + rest == rest;
    AcceptedAfterQuad(g);
    Associate(done, QuadOctets(Sextet(g[0]), Sextet(g[1]), Sextet(g[2]), Sextet(g[3])), Emitted(rest));
  }

  /** The first character outside the alphabet decides what is left to write and whether the text is accepted. */
  lemma DecodingStop(f: seq<byte>, done: seq<byte>, held: seq<byte>, c: byte, rest: seq<byte>)
    requires Decoding(f, done, held, [c] + rest) && !InAlphabet(c)
    ensures Emitted(f) == done +
              if c == PAD && |held| == 2 then [Octet0(Sextet(held[0]), Sextet(held[1]))]
              else if c == PAD && |held| == 3 then
                [Octet0(Sextet(held[0]), Sextet(held[1])), Octet1(Sextet(held[1]), Sextet(held[2]))]
              else []
    ensures Accepted(f) <==>
              c == PAD && ((|held| == 2 && rest == [PAD]) || (|held| == 3 && rest == []))
  {
    assert Sextet(PAD) == -1;
    hide Sextet, Octet0, Octet1, Octet2, Accepted;
    var g := held + ([c] + rest);
    assert g[|held|] == c && g[|held| + 1..] == rest;
    AcceptedLast(g);
  }

  /** Running out of characters. */
  lemma DecodingEnd(f: seq<byte>, done: seq<byte>, held: seq<byte>)
    requires Decoding(f, done, held, [])
    ensures Emitted(f) == done && (Accepted(f) <==> held == [])
  {
    assert Sextet(PAD) == -1;
    hide Sextet, Accepted;
    assert held + [] == held;
    AcceptedLast(held);
  }

  /** The loop that follows the first '=': are the remaining characters `expected` more '=' and whitespace? */
  method ReadTail(input: array<byte>, len: uint32, start: nat, expected: nat) returns (ok: bool)
    requires start <= len <= input.Length && expected <= 1
    ensures ok <==> Filter(input[start..len]) == if expected == 1 then [PAD] else []
  {
    hide Filter, Sextet;
    var i, seen := start, 0;
    ghost var text := input[..len];
    ghost var tail := Filter(text[start..]);
    assert input[start..len] == text[start..];
    while i < len
      invariant start <= i <= len && seen <= expected
      invariant tail == (if seen == 1 then [PAD] else []) + Filter(text[i..])
    {
      var t := Sextet(input[i]);
      FilterNext(text, i);
      i := i + 1;
      if t == -2 { continue; }
      if t == -1 {
        OnlyPad(text[i - 1]);
        assert tail[seen] == PAD;
        if seen >= expected { return false; }
        seen := seen + 1;
        continue;
      }
      assert tail[seen] == text[i - 1] && Sextet(PAD) == -1 by {
        PadSextet();
      }
      return false;
    }
    FilterNothing();
    return seen == expected;
  }

  lemma FilterNothing()
    ensures Filter([]) == []
  {
  }

  lemma PadSextet()
    ensures Sextet(PAD) == -1
  {
  }

  method FillPads(s: array<int>, start: nat)
    requires s.Length == 4 && start < 4
    modifies s
    ensures forall j :: 0 <= j < start ==> s[j] == old(s[j])
    ensures forall j :: start <= j < 4 ==> s[j] == -1
  {
    var ns := start;
    while ns < 4
      invariant start <= ns <= 4
      invariant forall j :: 0 <= j < start ==> s[j] == old(s[j])
      invariant forall j :: start <= j < ns ==> s[j] == -1
    {
      s[ns] := -1;
      ns := ns + 1;
    }
  }

  lemma OnlyPad(c: byte)
    requires Sextet(c) == -1
    ensures c == PAD
  {
  }

  lemma FilterNext(input: seq<byte>, i: nat)
    requires i < |input|
    ensures Filter(input[i..]) ==
            if Sextet(input[i]) == -2 then Filter(input[i + 1..]) else [input[i]] + Filter(input[i + 1..])
  {
    hide Sextet;
    assert input[i..][0] == input[i] && input[i..][1..] == input[i + 1..];
  }

  /** The loop invariant of noxtls_base64_decode: `i` characters of `text` are read, `outIx` octets are written. */
  ghost predicate AtLoopHead(text: seq<byte>, before: seq<byte>, input: seq<byte>, output: seq<byte>, s: seq<int>,
                             held: seq<byte>, i: nat, ns: nat, outIx: nat) {
    && i <= |text| <= |input| && ns < 4 == |s| && |held| == ns
    && 4 * outIx + 3 * ns <= 3 * i && outIx <= |before| == |output|
    && input[i..|text|] == text[i..]
    && (forall j :: 0 <= j < ns ==> 0 <= s[j] == Sextet(held[j]))
    && output[outIx..] == before[outIx..]
    && Decoding(Filter(text), output[..outIx], held, Filter(text[i..]))
  }

  lemma ReadsText(text: seq<byte>, before: seq<byte>, input: seq<byte>, output: seq<byte>, s: seq<int>,
                  held: seq<byte>, i: nat, ns: nat, outIx: nat)
    requires AtLoopHead(text, before, input, output, s, held, i, ns, outIx) && i < |text|
    ensures input[i] == text[i] && input[i + 1..|text|] == text[i + 1..]
    ensures Filter(text[i..]) ==
            if Sextet(text[i]) == -2 then Filter(text[i + 1..]) else [text[i]] + Filter(text[i + 1..])
  {
    hide Filter, Sextet, Decoding;
    assert input[i..|text|][1..] == input[i + 1..|text|] && text[i..][1..] == text[i + 1..];
    assert input[i..|text|][0] == input[i] && text[i..][0] == text[i];
    FilterNext(text, i);
  }

  lemma SkipSpace(text: seq<byte>, before: seq<byte>, input: seq<byte>, output: seq<byte>, s: seq<int>,
                  held: seq<byte>, i: nat, ns: nat, outIx: nat)
    requires AtLoopHead(text, before, input, output, s, held, i, ns, outIx) && i < |text|
    requires Sextet(text[i]) == -2
    ensures AtLoopHead(text, before, input, output, s, held, i + 1, ns, outIx)
  {
    hide Filter, Sextet, Decoding;
    ReadsText(text, before, input, output, s, held, i, ns, outIx);
  }

  lemma Refuse(text: seq<byte>, before: seq<byte>, input: seq<byte>, output: seq<byte>, s: seq<int>,
               held: seq<byte>, i: nat, ns: nat, outIx: nat)
    requires AtLoopHead(text, before, input, output, s, held, i, ns, outIx) && i < |text|
    requires Sextet(text[i]) == -3 || (Sextet(text[i]) == -1 && ns == 0)
    ensures Decoded(Filter(text), -1, before, output)
  {
    assert Sextet(PAD) == -1;
    hide Filter, Sextet, Accepted, Emitted, Decoding, Decoded, Octet0, Octet1;
    ReadsText(text, before, input, output, s, held, i, ns, outIx);
    DecodingStop(Filter(text), output[..outIx], held, text[i], Filter(text[i + 1..]));
    Concludes(Filter(text), -1, before, output, outIx);
  }

  lemma Concludes(f: seq<byte>, r: int, before: seq<byte>, after: seq<byte>, n: nat)
    requires n <= |before| == |after| && after[..n] == Emitted(f) && after[n..] == before[n..]
    requires r == if Accepted(f) && n <= INT_MAX then n else -1
    ensures Decoded(f, r, before, after)
  {
    hide Accepted, Emitted;
    assert after == after[..n] + after[n..];
  }

  lemma DecodingDone(text: seq<byte>, before: seq<byte>, input: seq<byte>, output: seq<byte>, s: seq<int>,
                     held: seq<byte>, ns: nat, outIx: nat)
    requires AtLoopHead(text, before, input, output, s, held, |text|, ns, outIx)
    ensures Decoded(Filter(text), if ns == 0 && outIx <= INT_MAX then outIx else -1, before, output)
  {
    hide Accepted, Emitted, Decoding;
    DecodingEnd(Filter(text), output[..outIx], held);
  }

  /** noxtls_base64_decode on an alphabet character: keep it, and write the quantum it completes. */
  method HoldCharacter(input: array<byte>, output: array<byte>, s: array<int>, i: nat, ns: nat, v: int, outIx: nat,
                       ghost text: seq<byte>, ghost before: seq<byte>, ghost held: seq<byte>)
    returns (ns': nat, outIx': nat, ghost held': seq<byte>)
    requires AtLoopHead(text, before, input[..], output[..], s[..], held, i, ns, outIx) && i < |text|
    requires 3 * |text| / 4 <= output.Length && 0 <= v == Sextet(text[i])
    modifies s, output
    ensures AtLoopHead(text, before, input[..], output[..], s[..], held', i + 1, ns', outIx')
  {
    hide Filter, Sextet, Octet0, Octet1, Octet2, Decoding;
    ghost var f, rest, now, s0 := Filter(text), Filter(text[i + 1..]), output[..], s[..];
    ReadsText(text, before, input[..], now, s0, held, i, ns, outIx);
    ghost var read := input[..];
    s[ns] := v;
    assert output[..] == now && input[..] == read;
    ns' := ns + 1;
    if ns' == 4 {
      DecodingQuad(f, now[..outIx], held, text[i], rest);
      var rc: int;
      rc, outIx' := EmitQuantum(s, output, outIx);
      if rc != 0 { assert false; }
      SameRest(now, before, outIx, outIx');
      assert input[..][outIx'..] == read[outIx'..];
      SameSlice(input[..], read, outIx', i + 1, |text|);
      return 0, outIx', [];
    }
    DecodingHold(f, now[..outIx], held, text[i], rest);
    return ns', outIx, held + [text[i]];
  }

  /** The first '=' settles which octets follow, and what the rest of the text must be. */
  lemma AtPad(text: seq<byte>, before: seq<byte>, input: seq<byte>, output: seq<byte>, s: seq<int>,
              held: seq<byte>, i: nat, ns: nat, outIx: nat)
    requires AtLoopHead(text, before, input, output, s, held, i, ns, outIx)
    requires i < |text| && text[i] == PAD && 1 <= ns
    ensures ns < 4 == |s| && forall j :: 0 <= j < ns ==> 0 <= s[j] < 64
    ensures 4 * outIx + 3 * ns <= 3 * i && outIx <= |before| == |output|
    ensures output[outIx..] == before[outIx..] && i < |input| && input[i + 1..|text|] == text[i + 1..]
    ensures Emitted(Filter(text)) == output[..outIx] +
              if ns == 2 then [Octet0(s[0], s[1])]
              else if ns == 3 then [Octet0(s[0], s[1]), Octet1(s[1], s[2])]
              else []
    ensures var rest := Filter(text[i + 1..]);
      Accepted(Filter(text)) <==> (ns == 2 && rest == [PAD]) || (ns == 3 && rest == [])
  {
    PadSextet();
    hide Filter, Sextet, Accepted, Emitted, Octet0, Octet1, Decoding;
    ReadsText(text, before, input, output, s, held, i, ns, outIx);
    DecodingStop(Filter(text), output[..outIx], held, PAD, Filter(text[i + 1..]));
  }

  lemma SameRest(a: seq<byte>, b: seq<byte>, m: nat, n: nat)
    requires m <= n <= |a| == |b| && a[m..] == b[m..]
    ensures a[n..] == b[n..]
  {
    assert a[n..] == a[m..][n - m..] && b[n..] == b[m..][n - m..];
  }

  lemma SameSlice(a: seq<byte>, b: seq<byte>, m: nat, n: nat, k: nat)
    requires m <= n <= k <= |a| == |b| && a[m..] == b[m..]
    ensures a[n..k] == b[n..k]
  {
    assert forall j :: n <= j < k ==> a[j] == a[m..][j - m] == b[m..][j - m] == b[j];
  }

  /** noxtls_base64_decode from the first '=' on, which stands at `i`. */
  method DecodePad(input: array<byte>, len: uint32, output: array<byte>, s: array<int>, i: nat, ns: nat, outIx: nat,
                   ghost text: seq<byte>, ghost before: seq<byte>, ghost held: seq<byte>)
    returns (r: int)
    requires i < len <= input.Length && |text| == len && 1 <= ns && text[i] == PAD
    requires AtLoopHead(text, before, input[..], output[..], s[..], held, i, ns, outIx)
    requires 3 * len / 4 <= output.Length
    modifies output, s
    ensures Decoded(Filter(text), r, before, output[..])
  {
    hide Filter, Sextet, Accepted, Emitted, Octet0, Octet1, Octet2, Decoding, Decoded, AtLoopHead;
    ghost var now := output[..];
    AtPad(text, before, input[..], now, s[..], held, i, ns, outIx);
    FillPads(s, ns);
    ghost var read := input[..];
    assert read[i + 1..len] == text[i + 1..] && output[..] == now;
    var rc, outIx' := EmitQuantum(s, output, outIx);
    SameRest(now, before, outIx, outIx');
    assert input[..][outIx'..] == read[outIx'..];
    SameSlice(input[..], read, outIx', i + 1, len);
    r := -1;
    if rc == 0 {
      var ok := ReadTail(input, len, i + 1, if ns == 2 then 1 else 0);
      if ok && outIx' <= INT_MAX {
        r := outIx';
      }
    }
    Concludes(Filter(text), r, before, output[..], outIx');
  }

  /** One turn of the main loop of noxtls_base64_decode, on the character at `i`. */
  method DecodeCharacter(input: array<byte>, len: uint32, output: array<byte>, s: array<int>,
                         i: nat, ns: nat, outIx: nat,
                         ghost text: seq<byte>, ghost before: seq<byte>, ghost held: seq<byte>)
    returns (done: bool, r: int, ns': nat, outIx': nat, ghost held': seq<byte>)
    requires i < len <= input.Length && |text| == len && 3 * len / 4 <= output.Length
    requires AtLoopHead(text, before, input[..], output[..], s[..], held, i, ns, outIx)
    modifies output, s
    ensures done ==> Decoded(Filter(text), r, before, output[..])
    ensures !done ==> AtLoopHead(text, before, input[..], output[..], s[..], held', i + 1, ns', outIx')
  {
    hide Filter, Sextet, AtLoopHead, Decoded;
    ReadsText(text, before, input[..], output[..], s[..], held, i, ns, outIx);
    var v := Sextet(input[i]);
    done, r, ns', outIx', held' := true, -1, ns, outIx, held;
    if v == -2 {
      SkipSpace(text, before, input[..], output[..], s[..], held, i, ns, outIx);
      done := false;
    } else if v == -3 || (v == -1 && ns == 0) {
      Refuse(text, before, input[..], output[..], s[..], held, i, ns, outIx);
    } else if v == -1 {
      OnlyPad(text[i]);
      r := DecodePad(input, len, output, s, i, ns, outIx, text, before, held);
    } else {
      ns', outIx', held' := HoldCharacter(input, output, s, i, ns, v, outIx, text, before, held);
      done := false;
    }
  }

  lemma AtStart(text: seq<byte>, before: seq<byte>, input: seq<byte>, s: seq<int>)
    requires |text| <= |input| && input[..|text|] == text && |s| == 4
    ensures AtLoopHead(text, before, input, before, s, [], 0, 0, 0)
  {
    hide Filter, Sextet, Decoding;
    assert text[0..] == text && before[..0] == [];
    DecodingStart(Filter(text));
  }

  /** The main loop of noxtls_base64_decode. */
  method DecodeText(input: array<byte>, len: uint32, output: array<byte>) returns (r: int)
    requires len <= input.Length && 3 * len / 4 <= output.Length
    modifies output
    ensures Decoded(Filter(old(input[..len])), r, old(output[..]), output[..])
  {
    hide *;
    ghost var text, before := input[..len], output[..];
    ghost var held: seq<byte> := [];
    var outIx: nat, i: nat, ns: nat := 0, 0, 0;
    var s := new int[4];
    AtStart(text, before, input[..], s[..]);
    while i < len
      invariant i <= len
      invariant AtLoopHead(text, before, input[..], output[..], s[..], held, i, ns, outIx)
    {
      var done: bool;
      done, r, ns, outIx, held := DecodeCharacter(input, len, output, s, i, ns, outIx, text, before, held);
      if done { return; }
      i := i + 1;
    }
    DecodingDone(text, before, input[..], output[..], s[..], held, ns, outIx);
    if ns != 0 { return -1; }
    if outIx > INT_MAX { return -1; }
    return outIx;
  }

  /**
   * noxtls_base64_decode. The result and the octets written are functions of the filtered text alone,
   * also when `output` is `input`, and 3 * len / 4 octets of output suffice.
   */
  method DecodeBuffer(input: array?<byte>, len: uint32, output: array?<byte>) returns (r: int)
    requires input != null ==> len <= input.Length
    requires output != null ==> 3 * len / 4 <= output.Length
    modifies output
    ensures input == null || output == null ==> r == -1
    ensures input != null && output != null ==>
              Decoded(Filter(old(input[..len])), r, old(output[..]), output[..])
  {
    if input == null || output == null { return -1; }
    if len == 0 {
      DecodeNothing();
      return 0;
    }
    r := DecodeText(input, len, output);
  }
}
