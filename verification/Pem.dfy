/** The PEM writer of certgen and the file loader that should undo it (RFC 7468 section 2). */
module Pem {
  import opened Bytes
  import opened Base64
  import opened Base64Codec
  import opened Workspace

  const NEWLINE: byte := 10
  const DASH: byte := 45

  /** "-----BEGIN" */
  const BEGIN: seq<byte> := [45, 45, 45, 45, 45, 66, 69, 71, 73, 78]
  /** "-----END" */
  const END: seq<byte> := [45, 45, 45, 45, 45, 69, 78, 68]

  const LINE: int := 64
  const FILE_MAX: int := 1024 * 1024

  // ----- strstr and strchr -----

  predicate OccursAt(s: seq<byte>, pat: seq<byte>, k: nat) {
    k + |pat| <= |s| && s[k..k + |pat|] == pat
  }

  lemma FirstOctet(s: seq<byte>, pat: seq<byte>, k: nat)
    requires OccursAt(s, pat, k) && pat != []
    ensures k < |s| && s[k] == pat[0]
  {
    assert s[k..k + |pat|][0] == s[k];
  }

  /** The first occurrence of `pat`. */
  function Find(s: seq<byte>, pat: seq<byte>): (r: Option<nat>)
    ensures r.Some? ==> OccursAt(s, pat, r.value) && forall k: nat :: k < r.value ==> !OccursAt(s, pat, k)
    ensures r.None? ==> forall k: nat :: !OccursAt(s, pat, k)
  {
    FindFrom(s, pat, 0)
  }

  function FindFrom(s: seq<byte>, pat: seq<byte>, i: nat): (r: Option<nat>)
    requires i <= |s|
    ensures r.Some? ==> i <= r.value && OccursAt(s, pat, r.value)
    ensures r.Some? ==> forall k: nat :: i <= k < r.value ==> !OccursAt(s, pat, k)
    ensures r.None? ==> forall k: nat :: i <= k ==> !OccursAt(s, pat, k)
    decreases |s| - i
  {
    if OccursAt(s, pat, i) then Some(i)
    else if i == |s| then None
    else FindFrom(s, pat, i + 1)
  }

  // ----- Writing -----

  /** `b` in lines of 64 characters, with a newline between lines and none at the end. */
  function Wrap(b: seq<byte>): seq<byte> {
    if |b| <= LINE then b else b[..LINE] + [NEWLINE] + Wrap(b[LINE..])
  }

  /** What the writer puts between the markers. */
  function Body(der: seq<byte>): seq<byte> {
    if |der| < UINT32_LIMIT then Reported(der) else []
  }

  function PemText(begin: seq<byte>, der: seq<byte>, end: seq<byte>): seq<byte> {
    begin + Wrap(Body(der)) + [NEWLINE] + end
  }

  /** Line breaks fall after each 64 characters and nowhere else. */
  lemma {:induction false} WrapLines(b: seq<byte>)
    requires NEWLINE !in b
    ensures |Wrap(b)| == |b| + if b == [] then 0 else (|b| - 1) / 64
    ensures forall k :: 0 <= k < |Wrap(b)| ==> (Wrap(b)[k] == NEWLINE <==> k % 65 == 64)
    ensures b != [] ==> Wrap(b) != [] && Wrap(b)[|Wrap(b)| - 1] == b[|b| - 1]
  {
    if |b| > LINE {
      var h, t := b[..LINE], b[LINE..];
      assert NEWLINE !in h && NEWLINE !in t;
      WrapLines(t);
      var w := Wrap(t);
      assert Wrap(b) == h + [NEWLINE] + w;
      hide Wrap;
      LineThenRest(h, w);
      assert b[|b| - 1] == t[|t| - 1];
    } else {
      assert Wrap(b) == b;
      hide Wrap;
    }
  }

  lemma LineThenRest(h: seq<byte>, w: seq<byte>)
    requires |h| == LINE && NEWLINE !in h
    requires forall k :: 0 <= k < |w| ==> (w[k] == NEWLINE <==> k % 65 == 64)
    ensures var s := h + [NEWLINE] + w; forall k :: 0 <= k < |s| ==> (s[k] == NEWLINE <==> k % 65 == 64)
  {
    var s := h + [NEWLINE] + w;
    forall k | 0 <= k < |s| ensures s[k] == NEWLINE <==> k % 65 == 64 {
      if 65 <= k {
        assert s[k] == w[k - 65];
      }
    }
  }

  /** Taking the line breaks out gives the characters back. */
  lemma {:induction false} FilterWrap(b: seq<byte>)
    requires Filter(b) == b
    ensures Filter(Wrap(b)) == b
  {
    if |b| > LINE {
      var h, t := b[..LINE], b[LINE..];
      assert b == h + t;
      FilterParts(h, t);
      FilterWrap(t);
      assert Filter([NEWLINE]) == [];
      FilterConcat(h + [NEWLINE], Wrap(t));
      FilterConcat(h, [NEWLINE]);
    }
  }

  lemma FilterParts(h: seq<byte>, t: seq<byte>)
    requires Filter(h + t) == h + t
    ensures Filter(h) == h && Filter(t) == t
  {
    var b := h + t;
    assert forall k :: 0 <= k < |b| ==> !IsSpace(Filter(b)[k]);
    assert forall k :: 0 <= k < |h| ==> h[k] == b[k];
    assert forall k :: 0 <= k < |t| ==> t[k] == b[|h| + k];
    hide IsSpace;
    FilterIdle(h);
    FilterIdle(t);
  }

  // ----- Loading -----

  /** Where a PEM body lies in the file, if the file has one. */
  datatype Armor = Bare | Broken | Enclosed(start: nat, end: nat)

  function FindArmor(file: seq<byte>): (r: Armor)
    ensures r.Enclosed? ==> r.start <= r.end < |file|
  {
    var text := UpToNul(file);
    var begin := Find(text, BEGIN);
    if begin.None? then Bare
    else
      var newline := Find(text[begin.value..], [NEWLINE]);
      var from := begin.value + if newline.Some? then newline.value else 0;
      var end := Find(text[from..], END);
      if newline.None? || end.None? then Broken
      else
        FirstOctet(text[begin.value..], [NEWLINE], newline.value);
        FirstOctet(text[from..], END, end.value);
        Enclosed(from + 1, from + end.value)
  }

  /** What the loader delivers when memory lasts. */
  ghost function Content(file: seq<byte>): Option<seq<byte>> {
    match FindArmor(file)
    case Bare => Some(file)
    case Broken => None
    case Enclosed(start, end) =>
      var f := Filter(file[start..end]);
      if DecodeReturn(f) <= 0 then None else Some(Emitted(f))
  }

  /** The loader's requests for memory, in order. */
  function Requests(file: seq<byte>): seq<nat> {
    match FindArmor(file)
    case Bare => [|file| + 1, |file|]
    case Broken => [|file| + 1]
    case Enclosed(start, end) => [|file| + 1, end - start]
  }

  /** What load_der_or_pem_file delivers with `off` octets of the arena in use. */
  ghost function Load(size: nat, off: nat, file: seq<byte>): Option<seq<byte>> {
    if file == [] || |file| > FILE_MAX || !AllServed(size, off, Requests(file)) then None else Content(file)
  }

  // ----- Loading what was written -----

  /** A marker in front: it opens with "-----BEGIN", and no dash follows its first newline. */
  ghost predicate BeginMarker(begin: seq<byte>) {
    && 0 !in begin && OccursAt(begin, BEGIN, 0)
    && DASH !in AfterNewline(begin)
  }

  ghost predicate EndMarker(end: seq<byte>) {
    0 !in end && OccursAt(end, END, 0)
  }

  /** What follows the first newline, nothing when there is none. */
  function AfterNewline(s: seq<byte>): seq<byte> {
    var n := Find(s, [NEWLINE]);
    if n.None? then [] else FirstOctet(s, [NEWLINE], n.value); s[n.value + 1..]
  }

  /** The characters of an encoding are neither NUL, newline nor dash. */
  lemma {:induction false} EncodedCharacters(der: seq<byte>)
    ensures 0 !in Encode(der) && NEWLINE !in Encode(der) && DASH !in Encode(der)
  {
    DecodeEncode(der);
    var f := Encode(der);
    hide Encode, Filter, Emitted;
    forall k | 0 <= k < |f| ensures f[k] != 0 && f[k] != NEWLINE && f[k] != DASH {
      var pads: nat :| pads <= 2 && PaddedBy(f, pads);
    }
  }

  lemma {:induction false} WrappedCharacters(b: seq<byte>, c: byte)
    requires c !in b && c != NEWLINE
    ensures c !in Wrap(b)
  {
    if |b| > LINE {
      WrappedCharacters(b[LINE..], c);
    }
  }

  /** Searching finds a known first occurrence. */
  lemma FindIs(s: seq<byte>, pat: seq<byte>, i: nat)
    requires OccursAt(s, pat, i) && forall k: nat :: k < i ==> !OccursAt(s, pat, k)
    ensures Find(s, pat) == Some(i)
  {
  }

  /** In `a + b`, `pat` first occurs at the start of `b` when its first octet is not in `a`. */
  lemma FindAfter(a: seq<byte>, b: seq<byte>, pat: seq<byte>)
    requires pat != [] && pat[0] !in a && OccursAt(b, pat, 0)
    ensures Find(a + b, pat) == Some(|a|)
  {
    var s := a + b;
    assert s[|a|..|a| + |pat|] == b[0..|pat|];
    forall k: nat | k < |a| ensures !OccursAt(s, pat, k) {
      assert s[k] == a[k] && a[k] in a;
      if OccursAt(s, pat, k) {
        FirstOctet(s, pat, k);
      }
    }
    FindIs(s, pat, |a|);
  }

  /** Where the body lies in a text made of a marker that holds the first newline, a body and a closing marker. */
  lemma ArmorOf(head: seq<byte>, body: seq<byte>, end: seq<byte>)
    requires 0 !in head && NEWLINE !in head && OccursAt(head, BEGIN, 0)
    requires 0 !in body && DASH !in body && EndMarker(end)
    ensures var file := head + [NEWLINE] + body + end;
      FindArmor(file) == Enclosed(|head| + 1, |head| + 1 + |body|) && file[|head| + 1..|head| + 1 + |body|] == body
  {
    var rest := [NEWLINE] + body;
    var file := head + [NEWLINE] + body + end;
    assert file == head + (rest + end);
    NoNul(file);
    assert file[0..|BEGIN|] == head[0..|BEGIN|];
    FindIs(file, BEGIN, 0);
    assert file[0..] == file;
    assert (rest + end)[0..1] == [NEWLINE];
    FindAfter(head, rest + end, [NEWLINE]);
    assert file[|head|..] == rest + end;
    FindAfter(rest, end, END);
  }

  lemma BodyOf(der: seq<byte>)
    requires 0 < |der| <= 1610612733
    ensures Body(der) == Encode(der) && 4 <= |Encode(der)|
  {
    EncodeReturnIsLength(|der|);
  }

  /** The split of a begin marker at its first newline. */
  lemma BeginSplit(begin: seq<byte>)
    requires BeginMarker(begin) && NEWLINE in begin
    ensures exists head ::
      && begin == head + [NEWLINE] + AfterNewline(begin)
      && 0 !in head && NEWLINE !in head && OccursAt(head, BEGIN, 0)
  {
    hide FindFrom;
    var i :| 0 <= i < |begin| && begin[i] == NEWLINE;
    assert OccursAt(begin, [NEWLINE], i);
    var n := Find(begin, [NEWLINE]).value;
    FirstOctet(begin, [NEWLINE], n);
    FirstNewline(begin, n);
    assert begin == begin[..n] + [NEWLINE] + AfterNewline(begin);
  }

  lemma FirstNewline(begin: seq<byte>, n: nat)
    requires 0 !in begin && OccursAt(begin, BEGIN, 0) && n < |begin| && begin[n] == NEWLINE
    requires forall k: nat :: k < n ==> !OccursAt(begin, [NEWLINE], k)
    ensures NEWLINE !in begin[..n] && 0 !in begin[..n] && OccursAt(begin[..n], BEGIN, 0)
  {
    var head := begin[..n];
    forall k | 0 <= k < n ensures head[k] != NEWLINE {
      assert !OccursAt(begin, [NEWLINE], k) && begin[k..k + 1] == [begin[k]];
    }
    assert forall k :: 0 <= k < |BEGIN| ==> begin[k] == begin[0..|BEGIN|][k];
    assert NEWLINE !in BEGIN;
    assert head[0..|BEGIN|] == begin[0..|BEGIN|];
  }

  /** What the loader makes of a text whose first line is `head`. */
  lemma ContentBehind(head: seq<byte>, body: seq<byte>, end: seq<byte>)
    requires 0 !in head && NEWLINE !in head && OccursAt(head, BEGIN, 0)
    requires 0 !in body && DASH !in body && EndMarker(end)
    ensures var file, f := head + [NEWLINE] + body + end, Filter(body);
      && Requests(file) == [|file| + 1, |body|]
      && Content(file) == if DecodeReturn(f) <= 0 then None else Some(Emitted(f))
  {
    hide Filter, Emitted, DecodeReturn, FindArmor, EndMarker;
    ArmorOf(head, body, end);
  }

  /** The body that the loader finds behind a marker with a newline. */
  lemma ContentOf(begin: seq<byte>, der: seq<byte>, end: seq<byte>)
    requires BeginMarker(begin) && NEWLINE in begin && EndMarker(end) && 0 < |der| <= 1610612733
    ensures var f := Filter(AfterNewline(begin)) + Encode(der);
      Content(PemText(begin, der, end)) == if DecodeReturn(f) <= 0 then None else Some(Emitted(f))
    ensures Requests(PemText(begin, der, end)) ==
              [|PemText(begin, der, end)| + 1, |AfterNewline(begin)| + |Wrap(Encode(der))| + 1]
  {
    hide Find, AfterNewline, Encode, Wrap, Filter, Emitted, DecodeReturn, FindArmor, Content, Requests;
    hide PemText, BeginMarker, EndMarker, Body;
    BeginSplit(begin);
    var after := AfterNewline(begin);
    var head :| begin == head + [NEWLINE] + after && 0 !in head && NEWLINE !in head && OccursAt(head, BEGIN, 0);
    BodyOf(der);
    PemTextParts(begin, head, after, der, end);
    var body := BodyText(after, der);
    WrappedEncoding(der);
    MarkerTail(begin, head, after, Wrap(Encode(der)));
    ContentBehind(head, body, end);
    FilterBody(after, der);
  }

  /** The body of a text whose marker has `after` behind its first newline. */
  function BodyText(after: seq<byte>, der: seq<byte>): (b: seq<byte>)
    ensures b == after + Wrap(Encode(der)) + [NEWLINE]
    ensures |b| == |after| + |Wrap(Encode(der))| + 1
  {
    after + Wrap(Encode(der)) + [NEWLINE]
  }

  lemma PemTextParts(begin: seq<byte>, head: seq<byte>, after: seq<byte>, der: seq<byte>, end: seq<byte>)
    requires begin == head + [NEWLINE] + after && Body(der) == Encode(der)
    ensures PemText(begin, der, end) == head + [NEWLINE] + BodyText(after, der) + end
  {
  }

  lemma MarkerTail(begin: seq<byte>, head: seq<byte>, after: seq<byte>, w: seq<byte>)
    requires BeginMarker(begin) && begin == head + [NEWLINE] + after && after == AfterNewline(begin)
    requires 0 !in w && DASH !in w
    ensures DASH !in after + w + [NEWLINE] && 0 !in after + w + [NEWLINE]
  {
    hide AfterNewline;
    assert forall k :: 0 <= k < |after| ==> after[k] == begin[|head| + 1 + k];
  }

  lemma WrappedEncoding(der: seq<byte>)
    ensures 0 !in Wrap(Encode(der)) && DASH !in Wrap(Encode(der))
  {
    EncodedCharacters(der);
    WrappedCharacters(Encode(der), 0);
    WrappedCharacters(Encode(der), DASH);
  }

  lemma FilterBody(after: seq<byte>, der: seq<byte>)
    ensures Filter(after + Wrap(Encode(der)) + [NEWLINE]) == Filter(after) + Encode(der)
  {
    DecodeEncode(der);
    FilterWrap(Encode(der));
    assert Filter([NEWLINE]) == [];
    FilterConcat(after, Wrap(Encode(der)));
    FilterConcat(after + Wrap(Encode(der)), [NEWLINE]);
  }

  /** Characters in front of an encoding make the decoded text longer, if it decodes at all. */
  lemma LongerDecode(g: seq<byte>, der: seq<byte>)
    requires g != [] && der != [] && Accepted(g + Encode(der))
    ensures |Emitted(g + Encode(der))| > |der|
  {
    var e := Encode(der);
    var f := g + e;
    DecodeEncode(der);
    DecodedLength(e);
    DecodedLength(f);
    hide Encode, Emitted, Accepted;
    assert 4 <= |e| && f[|f| - 1] == e[|e| - 1] && f[|f| - 2] == e[|e| - 2];
    assert Pads(f) == Pads(e);
  }

  /** A marker without a newline makes the first line of the body, 48 octets, part of the marker. */
  lemma NewlineFreeMarker(begin: seq<byte>, der: seq<byte>, end: seq<byte>)
    requires BeginMarker(begin) && NEWLINE !in begin && EndMarker(end) && 0 < |der| <= 1610612733
    ensures Content(PemText(begin, der, end)) == if |der| > 48 then Some(der[48..]) else None
  {
    if |der| > 48 {
      LosesFirstLine(begin, der, end);
    } else {
      LosesOnlyLine(begin, der, end);
    }
  }

  lemma LosesFirstLine(begin: seq<byte>, der: seq<byte>, end: seq<byte>)
    requires BeginMarker(begin) && NEWLINE !in begin && EndMarker(end) && 48 < |der| <= 1610612733
    ensures Content(PemText(begin, der, end)) == Some(der[48..])
  {
    hide Find, Encode, Filter, Emitted, FindArmor, Accepted, BeginMarker, EndMarker, Content, Body;
    BodyOf(der);
    EncodeSplit(der, 16);
    EncodedCharacters(der);
    var e, tail := Encode(der), der[48..];
    assert e[..64] == Encode(der[..48]) && e[64..] == Encode(tail);
    BodyOf(tail);
    var head, body := begin + e[..64], Wrap(Encode(tail)) + [NEWLINE];
    HeadOf(begin, e[..64]);
    WrappedEncoding(tail);
    assert PemText(begin, der, end) == head + [NEWLINE] + body + end;
    ContentBehind(head, body, end);
    FilterBody([], tail);
    DecodeNothing();
    assert [] + Wrap(Encode(tail)) + [NEWLINE] == body && [] + Encode(tail) == Encode(tail);
    RoundTrip(tail, body);
  }

  lemma LosesOnlyLine(begin: seq<byte>, der: seq<byte>, end: seq<byte>)
    requires BeginMarker(begin) && NEWLINE !in begin && EndMarker(end) && 0 < |der| <= 48
    ensures Content(PemText(begin, der, end)) == None
  {
    hide Find, Encode, Filter, Emitted, FindArmor, Accepted, BeginMarker, EndMarker, Content, Body;
    BodyOf(der);
    ShortBody(der);
    EncodedCharacters(der);
    HeadOf(begin, Encode(der));
    assert PemText(begin, der, end) == begin + Encode(der) + [NEWLINE] + [] + end;
    ContentBehind(begin + Encode(der), [], end);
    DecodeNothing();
  }

  lemma ShortBody(der: seq<byte>)
    requires |der| <= 48
    ensures |Encode(der)| <= 64
  {
  }

  lemma HeadOf(begin: seq<byte>, e: seq<byte>)
    requires BeginMarker(begin) && NEWLINE !in begin && 0 !in e && NEWLINE !in e
    ensures var head := begin + e; 0 !in head && NEWLINE !in head && OccursAt(head, BEGIN, 0)
  {
    hide Find, AfterNewline;
    assert (begin + e)[0..|BEGIN|] == begin[0..|BEGIN|];
  }

  /** The loader gives back what was written exactly when the marker ends its line, up to whitespace. */
  lemma LoadsBack(begin: seq<byte>, der: seq<byte>, end: seq<byte>)
    requires BeginMarker(begin) && EndMarker(end) && 0 < |der| <= 1610612733
    ensures Content(PemText(begin, der, end)) == Some(der) <==>
              NEWLINE in begin && forall k :: 0 <= k < |AfterNewline(begin)| ==> IsSpace(AfterNewline(begin)[k])
  {
    hide Find, AfterNewline, Encode, Filter, Emitted, Accepted, FindArmor, PemText, IsSpace;
    var g := Filter(AfterNewline(begin));
    FilterSpaces(AfterNewline(begin));
    if NEWLINE !in begin {
      NewlineFreeMarker(begin, der, end);
    } else {
      ContentOf(begin, der, end);
      if g == [] {
        assert g + Encode(der) == Encode(der);
        DecodeEncode(der);
      } else if Accepted(g + Encode(der)) {
        LongerDecode(g, der);
      }
    }
  }

  /** With a marker that ends its line, the memory for the file and for the body is all that loading needs. */
  lemma LoadsBackIffRoom(size: nat, off: nat, begin: seq<byte>, der: seq<byte>, end: seq<byte>)
    requires BeginMarker(begin) && EndMarker(end) && 0 < |der| <= 1610612733
    requires NEWLINE in begin && AfterNewline(begin) == []
    ensures var text, lines := PemText(begin, der, end), (EncodedLength(|der|) - 1) / 64 + 1;
      && |text| == |begin| + EncodedLength(|der|) + lines + |end|
      && (Load(size, off, text) == Some(der) <==>
            |text| <= 0x10_0000 && Round16(off) + Round16(|text| + 1) + EncodedLength(|der|) + lines <= size)
  {
    hide Find, AfterNewline, Encode, Filter, Emitted, Accepted, FindArmor, Content, DecodeReturn, Round16, IsSpace;
    LoadsBack(begin, der, end);
    ContentOf(begin, der, end);
    EncodedCharacters(der);
    BodyOf(der);
    WrapLines(Encode(der));
    var text := PemText(begin, der, end);
    var ns := Requests(text);
    AllServedIffRoom(size, off, ns);
    assert ns[1..][..] == [ns[1]];
    assert Room(ns) == Round16(ns[0]) + ns[1];
  }

  // ----- Text in front of the marker -----

  lemma OccursBehind(pre: seq<byte>, s: seq<byte>, pat: seq<byte>, k: nat)
    ensures OccursAt(pre + s, pat, |pre| + k) <==> OccursAt(s, pat, k)
  {
    if k + |pat| <= |s| {
      assert (pre + s)[|pre| + k..|pre| + k + |pat|] == s[k..k + |pat|];
    }
  }

  function Moved(a: Armor, n: nat): Armor {
    if a.Enclosed? then Enclosed(n + a.start, n + a.end) else a
  }

  lemma FindBehind(pre: seq<byte>, s: seq<byte>, pat: seq<byte>)
    requires forall k: nat :: k < |pre| ==> !OccursAt(pre + s, pat, k)
    ensures Find(pre + s, pat) == if Find(s, pat).Some? then Some(|pre| + Find(s, pat).value) else None
  {
    var r := Find(s, pat);
    hide OccursAt, FindFrom;
    forall k: nat | r.Some? ==> k < |pre| + r.value ensures !OccursAt(pre + s, pat, k) {
      if |pre| <= k {
        OccursBehind(pre, s, pat, k - |pre|);
      }
    }
    if r.Some? {
      OccursBehind(pre, s, pat, r.value);
    }
  }

  /** Text in front of a file moves its body along, unless "-----BEGIN" starts in it. */
  lemma ArmorBehind(pre: seq<byte>, file: seq<byte>)
    requires 0 !in pre && forall k: nat :: k < |pre| ==> !OccursAt(pre + UpToNul(file), BEGIN, k)
    ensures FindArmor(pre + file) == Moved(FindArmor(file), |pre|)
  {
    hide OccursAt, UpToNul, Find;
    NulBehind(pre, file);
    var text := UpToNul(file);
    FindBehind(pre, text, BEGIN);
    var begin := Find(text, BEGIN);
    if begin.Some? {
      FirstOctet(text, BEGIN, begin.value);
      DropBehind(pre, text, begin.value);
      var newline := Find(text[begin.value..], [NEWLINE]);
      if newline.Some? {
        NewlineWithin(text[begin.value..]);
        DropBehind(pre, text, begin.value + newline.value);
      }
    }
  }

  lemma NewlineWithin(s: seq<byte>)
    ensures var n := Find(s, [NEWLINE]); n.Some? ==> n.value < |s|
  {
  }

  lemma DropBehind(pre: seq<byte>, s: seq<byte>, k: nat)
    requires k <= |s|
    ensures (pre + s)[|pre| + k..] == s[k..]
  {
  }

  /** So what the loader delivers stays the same. */
  lemma ContentBehindText(pre: seq<byte>, file: seq<byte>)
    requires 0 !in pre && forall k: nat :: k < |pre| ==> !OccursAt(pre + UpToNul(file), BEGIN, k)
    requires FindArmor(file) != Bare
    ensures Content(pre + file) == Content(file)
  {
    hide FindArmor, UpToNul, OccursAt, Content;
    ArmorBehind(pre, file);
    var a := FindArmor(file);
    if a.Enclosed? {
      SliceBehind(pre, file, a.start, a.end);
      SameBody(pre + file, |pre| + a.start, |pre| + a.end, file, a.start, a.end);
    } else {
      BrokenContent(file);
      BrokenContent(pre + file);
    }
  }

  lemma SameBody(file: seq<byte>, i: nat, j: nat, file': seq<byte>, i': nat, j': nat)
    requires FindArmor(file) == Enclosed(i, j) && FindArmor(file') == Enclosed(i', j')
    requires file[i..j] == file'[i'..j']
    ensures Content(file) == Content(file')
  {
    hide FindArmor, Filter, Emitted, DecodeReturn;
  }

  lemma BrokenContent(file: seq<byte>)
    requires FindArmor(file) == Broken
    ensures Content(file) == None
  {
  }

  lemma SliceBehind(pre: seq<byte>, s: seq<byte>, i: nat, j: nat)
    requires i <= j <= |s|
    ensures (pre + s)[|pre| + i..|pre| + j] == s[i..j]
  {
  }

  lemma OccursInFront(s: seq<byte>, more: seq<byte>, pat: seq<byte>, k: nat)
    requires k + |pat| <= |s|
    ensures OccursAt(s + more, pat, k) <==> OccursAt(s, pat, k)
  {
    assert (s + more)[k..k + |pat|] == s[k..k + |pat|];
  }

  lemma PemTextOpens(pre: seq<byte>, begin: seq<byte>, der: seq<byte>, end: seq<byte>)
    requires BeginMarker(begin) && EndMarker(end) && 0 < |der| <= 1610612733
    requires forall k: nat :: k < |pre| ==> !OccursAt(pre + begin, BEGIN, k)
    ensures var text := PemText(begin, der, end);
      && UpToNul(text) == text && FindArmor(text) != Bare
      && forall k: nat :: k < |pre| ==> !OccursAt(pre + text, BEGIN, k)
  {
    hide FindArmor, Encode, Body, AfterNewline, UpToNul, Wrap, OccursAt;
    assert |BEGIN| <= |begin| by {
      OccursFits(begin, BEGIN);
    }
    var text := PemText(begin, der, end);
    BodyOf(der);
    WrappedEncoding(der);
    NoNul(text);
    var rest := Wrap(Body(der)) + [NEWLINE] + end;
    assert text == begin + rest && pre + text == pre + begin + rest;
    forall k: nat | k < |pre| ensures !OccursAt(pre + text, BEGIN, k) {
      OccursInFront(pre + begin, rest, BEGIN, k);
    }
    OccursInFront(begin, rest, BEGIN, 0);
    BareLoads(text);
    assert OccursAt(UpToNul(text), BEGIN, 0);
  }

  lemma OccursFits(s: seq<byte>, pat: seq<byte>)
    requires OccursAt(s, pat, 0)
    ensures |pat| <= |s|
  {
  }

  /** What was written loads back behind any such text, exactly when it does alone. */
  lemma LoadsBackBehind(pre: seq<byte>, begin: seq<byte>, der: seq<byte>, end: seq<byte>)
    requires BeginMarker(begin) && EndMarker(end) && 0 < |der| <= 1610612733
    requires 0 !in pre && forall k: nat :: k < |pre| ==> !OccursAt(pre + begin, BEGIN, k)
    ensures Content(pre + PemText(begin, der, end)) == Some(der) <==>
              NEWLINE in begin && forall k :: 0 <= k < |AfterNewline(begin)| ==> IsSpace(AfterNewline(begin)[k])
  {
    hide *;
    PemTextOpens(pre, begin, der, end);
    ContentBehindText(pre, PemText(begin, der, end));
    LoadsBack(begin, der, end);
  }

  // ----- Files without a marker -----

  /** Does "-----BEGIN" stand before the first NUL? */
  ghost predicate HasBegin(file: seq<byte>) {
    exists k: nat :: OccursAt(UpToNul(file), BEGIN, k)
  }

  /** A file is bare exactly when it does not, and then it is taken as it is. */
  lemma BareLoads(file: seq<byte>)
    ensures FindArmor(file) == Bare <==> !HasBegin(file)
    ensures FindArmor(file) == Bare ==> Content(file) == Some(file)
  {
    hide OccursAt, UpToNul;
    var begin := Find(UpToNul(file), BEGIN);
    if begin.Some? {
      assert HasBegin(file);
    } else {
      assert !HasBegin(file);
    }
  }
}
