/** write_der_as_pem and load_der_or_pem_file of certgen, with the arena that serves their memory. */
module PemFile {
  import opened Bytes
  import opened Base64
  import opened Base64Codec
  import opened Workspace
  import opened Pem

  // ----- The markers that certgen uses -----

  const DASHES: seq<byte> := [45, 45, 45, 45, 45]
  const SPACE: byte := 32

  /** "-----BEGIN <name>-----", without or with a newline. */
  function BeginLabel(name: seq<byte>, newline: bool): seq<byte> {
    BEGIN + [SPACE] + name + DASHES + if newline then [NEWLINE] else []
  }

  /** "-----END <name>-----", without or with a newline. */
  function EndLabel(name: seq<byte>, newline: bool): seq<byte> {
    END + [SPACE] + name + DASHES + if newline then [NEWLINE] else []
  }

  lemma MarkersAre(name: seq<byte>)
    ensures BEGIN == Ascii("-----BEGIN") && END == Ascii("-----END") && [NEWLINE] == Ascii("\n")
    ensures BeginLabel(name, false) == Ascii("-----BEGIN ") + name + Ascii("-----")
    ensures BeginLabel(name, true) == Ascii("-----BEGIN ") + name + Ascii("-----\n")
    ensures EndLabel(name, false) == Ascii("-----END ") + name + Ascii("-----")
    ensures EndLabel(name, true) == Ascii("-----END ") + name + Ascii("-----\n")
  {
    LabelPieces();
    hide Ascii, BEGIN, END, DASHES;
    assert BEGIN + [SPACE] + name + DASHES + [] == BEGIN + [SPACE] + name + DASHES;
    assert END + [SPACE] + name + DASHES + [] == END + [SPACE] + name + DASHES;
    assert BEGIN + [SPACE] + name + DASHES + [NEWLINE] == BEGIN + [SPACE] + name + (DASHES + [NEWLINE]);
    assert END + [SPACE] + name + DASHES + [NEWLINE] == END + [SPACE] + name + (DASHES + [NEWLINE]);
  }

  lemma LabelPieces()
    ensures BEGIN == Ascii("-----BEGIN") && END == Ascii("-----END") && [NEWLINE] == Ascii("\n")
    ensures BEGIN + [SPACE] == Ascii("-----BEGIN ") && END + [SPACE] == Ascii("-----END ")
    ensures DASHES == Ascii("-----") && DASHES + [NEWLINE] == Ascii("-----\n")
  {
  }

  lemma LabelMarkers(name: seq<byte>, newline: bool)
    requires 0 !in name && NEWLINE !in name
    ensures BeginMarker(BeginLabel(name, newline)) && EndMarker(EndLabel(name, newline))
    ensures NEWLINE in BeginLabel(name, newline) <==> newline
    ensures AfterNewline(BeginLabel(name, newline)) == []
  {
    var line := BEGIN + [SPACE] + name + DASHES;
    var begin, end := BeginLabel(name, newline), EndLabel(name, newline);
    assert 0 !in BEGIN && NEWLINE !in BEGIN && 0 !in END && 0 !in DASHES && NEWLINE !in DASHES;
    assert begin[0..|BEGIN|] == BEGIN && end[0..|END|] == END;
    assert 0 !in line && NEWLINE !in line && 0 !in begin && 0 !in end;
    if newline {
      assert begin == line + [NEWLINE] && [NEWLINE][0..1] == [NEWLINE];
      FindAfter(line, [NEWLINE], [NEWLINE]);
      assert begin[|line|] == NEWLINE;
    } else {
      assert begin == line;
      var n := Find(begin, [NEWLINE]);
      if n.Some? {
        FirstOctet(begin, [NEWLINE], n.value);
      }
    }
  }

  /** What certgen writes under a marker with a newline, its private keys, it can load again. */
  lemma PrivateKeyLoads(name: seq<byte>, der: seq<byte>)
    requires 0 !in name && NEWLINE !in name && 0 < |der| <= 1610612733
    ensures Content(PemText(BeginLabel(name, true), der, EndLabel(name, true))) == Some(der)
  {
    hide *;
    LabelMarkers(name, true);
    LoadsBack(BeginLabel(name, true), der, EndLabel(name, true));
  }

  /** What it writes under a marker without one, its public keys, comes back without 48 octets or not at all. */
  lemma PublicKeyLosesFirstLine(name: seq<byte>, der: seq<byte>)
    requires 0 !in name && NEWLINE !in name && 0 < |der| <= 1610612733
    ensures Content(PemText(BeginLabel(name, false), der, EndLabel(name, false))) ==
              if |der| > 48 then Some(der[48..]) else None
  {
    hide *;
    LabelMarkers(name, false);
    NewlineFreeMarker(BeginLabel(name, false), der, EndLabel(name, false));
  }

  // ----- The writer -----

  lemma LineAt(s: seq<byte>, n: nat, i: nat, k: nat)
    requires i + k <= n <= |s|
    ensures s[..n][i..][..k] == s[i..i + k] && s[..n][i..][k..] == s[..n][i + k..]
  {
    var rest := s[..n][i..];
    assert forall j :: 0 <= j < |rest| ==> rest[j] == s[i + j];
  }

  /** The loop that writes the body in lines. */
  method WriteLines(b64: array<byte>, b64Len: nat, begin: seq<byte>) returns (text: seq<byte>)
    requires b64Len <= b64.Length
    ensures text == begin + Wrap(b64[..b64Len])
  {
    text := begin;
    var written := 0;
    ghost var b := b64[..b64Len];
    assert b[0..] == b;
    while written < b64Len
      invariant written <= b64Len
      invariant text + Wrap(b[written..]) == begin + Wrap(b)
    {
      var chunk := b64Len - written;
      if chunk > LINE { chunk := LINE; }
      ghost var rest := b[written..];
      LineAt(b64[..], b64Len, written, chunk);
      text := text + b64[written..written + chunk];
      written := written + chunk;
      if written < b64Len {
        text := text + [NEWLINE];
      }
    }
  }

  /** The octets of the Base64 buffer when all is written. */
  function Encoded(der: seq<byte>): (b: seq<byte>)
    requires |der| < UINT32_LIMIT
    ensures |b| == EncodedLength(|der|) + 4
  {
    hide Encode, Overlaid;
    EncodedBound(|der|);
    Overlaid(Encode(der), Zeros(EncodedLength(|der|) + 4))
  }

  lemma EncodedBound(n: nat)
    requires n < UINT32_LIMIT
    ensures EncodedLength(n) <= 2 * UINT32_LIMIT
  {
  }

  /** write_der_as_pem; `text` is what has been put into the file. */
  method WriteDerAsPem(arena: Arena, der: array<byte>, derLen: uint32, begin: cstring, end: cstring)
    returns (r: int, text: seq<byte>)
    requires arena.Valid() && derLen <= der.Length
    modifies arena, arena.buffer
    ensures arena.Valid()
    ensures arena.Current() == AllocFill(old(arena.Current()), EncodedLength(derLen) + 4, Encoded(old(der[..derLen])))
    ensures var p := Place(arena.buffer.Length, old(arena.off), EncodedLength(derLen) + 4);
      && (p.None? ==> r == -1 && text == begin)
      && (p.Some? ==> r == 0 && text == PemText(begin, old(der[..derLen]), end))
  {
    hide Find, Encode, Wrap, Place, Clean, Overlaid, EncodeReturn, Round16;
    ghost var d, held := der[..derLen], |arena.live|;
    text := begin;
    var b64Size := EncodedLength(derLen) + 4;
    var p := arena.Alloc(b64Size);
    if p.None? { return -1, text; }
    var b64 := new byte[b64Size](_ => 0);
    assert b64[..] == Zeros(b64Size);
    var b64Len := EncodeBuffer(der, derLen, b64);
    assert b64[..] == Encoded(d);
    arena.Fill(p.value, b64[..], held);
    WrapNothing(begin);
    if b64Len > 0 {
      ReportedIs(d, Zeros(b64Size));
      text := WriteLines(b64, b64Len, text);
    }
    text := text + [NEWLINE];
    arena.Free(p.value);
    text := text + end;
    return 0, text;
  }

  lemma WrapNothing(begin: seq<byte>)
    ensures begin + Wrap([]) == begin
  {
  }

  // ----- The loader -----

  lemma {:induction false} NulEnds(file: seq<byte>)
    ensures UpToNul(file + [0]) == UpToNul(file)
  {
    if file != [] {
      assert (file + [0])[1..] == file[1..] + [0];
      NulEnds(file[1..]);
    }
  }

  lemma ServedIs(size: nat, off: nat, ns: seq<nat>)
    requires 1 <= |ns| <= 2
    ensures var p := Place(size, off, ns[0]);
      AllServed(size, off, ns) <==> p.Some? && (|ns| == 2 ==> Place(size, p.value + ns[0], ns[1]).Some?)
    decreases |ns|
  {
    hide Place;
    if |ns| == 2 && Place(size, off, ns[0]).Some? {
      ServedIs(size, Place(size, off, ns[0]).value + ns[0], ns[1..]);
    }
  }

  /** The octets of the loader's copy of the file, with its terminator and the one it puts over the end marker. */
  function RawOctets(file: seq<byte>): (raw: seq<byte>)
    ensures |raw| == |file| + 1
  {
    var armor := FindArmor(file);
    if armor.Enclosed? then file[armor.end := 0] + [0] else file + [0]
  }

  /** What the loader writes into its second block: the file, or whatever decoding its body emits, and zeros. */
  ghost function SecondOctets(file: seq<byte>): seq<byte> {
    hide Filter, Emitted, FindArmor;
    match FindArmor(file)
    case Bare => file
    case Broken => []
    case Enclosed(start, end) =>
      var f := Filter(file[start..end]);
      Emitted(f) + Zeros(end - start - |Emitted(f)|)
  }

  lemma SecondFits(file: seq<byte>)
    ensures |Requests(file)| == 2 ==> |SecondOctets(file)| <= Requests(file)[1]
  {
    hide Filter, Emitted, FindArmor;
  }

  /** The arena after load_der_or_pem_file. */
  ghost function AfterLoad(st: State, file: seq<byte>): State {
    if file == [] || |file| > FILE_MAX || Place(|st.mem|, st.off, |file| + 1).None? then st
    else
      var raw := AllocFill(st, |file| + 1, RawOctets(file));
      if FindArmor(file).Broken? then raw
      else
        SecondFits(file);
        AllocFill(raw, Requests(file)[1], SecondOctets(file))
  }

  // ----- What loading leaves in the arena -----

  /** A bare file needs room for its copy with a terminator, and for itself. */
  lemma BareLoadsIffRoom(size: nat, off: nat, file: seq<byte>)
    requires !HasBegin(file)
    ensures Load(size, off, file) == Some(file) <==>
              0 < |file| <= 0x10_0000 && Round16(off) + Round16(|file| + 1) + |file| <= size
  {
    hide FindArmor, HasBegin, Content, Round16;
    BareLoads(file);
    var ns := Requests(file);
    if file != [] {
      AllServedIffRoom(size, off, ns);
      assert ns[1..][..] == [ns[1]] && Room(ns) == Round16(ns[0]) + ns[1];
    }
  }

  lemma RawAt(file: seq<byte>, i: nat)
    requires i <= |file|
    ensures var armor := FindArmor(file);
      RawOctets(file)[i] == if i == |file| || (armor.Enclosed? && i == armor.end) then 0 else file[i]
  {
    hide FindArmor;
  }

  /** What is delivered fills the second block, up to zeros. */
  lemma SecondIs(file: seq<byte>)
    requires Content(file).Some?
    ensures |Requests(file)| == 2 && |Content(file).value| <= Requests(file)[1]
    ensures SecondOctets(file) == Content(file).value + Zeros(Requests(file)[1] - |Content(file).value|)
  {
    hide FindArmor, Filter, Emitted, Accepted;
  }

  lemma LoadIs(size: nat, off: nat, file: seq<byte>)
    requires Load(size, off, file).Some?
    ensures Load(size, off, file) == Content(file) && file != [] && |file| <= FILE_MAX
    ensures AllServed(size, off, Requests(file))
  {
  }

  /** A load that succeeds has both its requests served. */
  lemma LoadTwice(st: State, file: seq<byte>)
    requires Load(|st.mem|, st.off, file).Some?
    ensures Content(file).Some? && Place(|st.mem|, st.off, |file| + 1).Some?
    ensures |Requests(file)| == 2 && |SecondOctets(file)| <= Requests(file)[1]
    ensures var raw := AllocFill(st, |file| + 1, RawOctets(file));
      && Place(|raw.mem|, raw.off, Requests(file)[1]).Some?
      && AfterLoad(st, file) == AllocFill(raw, Requests(file)[1], SecondOctets(file))
  {
    hide FindArmor, Content, SecondOctets, RawOctets, AllServed, Round16, Place, AllocFill, Requests, Load;
    LoadIs(|st.mem|, st.off, file);
    SecondIs(file);
    FirstRequest(file);
    ServedIs(|st.mem|, st.off, Requests(file));
    AllocFillOff(st, |file| + 1, RawOctets(file));
    if FindArmor(file).Broken? {
      BrokenContent(file);
    }
  }

  lemma AllocFillOff(st: State, n: nat, data: seq<byte>)
    requires |data| <= n
    ensures var p := Place(|st.mem|, st.off, n); p.Some? ==> AllocFill(st, n, data).off == p.value + n
  {
  }

  lemma FirstRequest(file: seq<byte>)
    ensures |Requests(file)| > 0 && Requests(file)[0] == |file| + 1
  {
    hide FindArmor;
  }

  /** A loaded file leaves two blocks: its copy, with NUL behind it and over its end marker, and what is delivered. */
  lemma LoadLeaves(st: State, file: seq<byte>, k: nat)
    requires Load(|st.mem|, st.off, file).Some? && k < |st.mem|
    ensures |Requests(file)| == 2
    ensures var st', der, armor := AfterLoad(st, file), Load(|st.mem|, st.off, file).value, FindArmor(file);
      var n, p := Requests(file)[1], Round16(st.off);
      var q := Round16(p + |file| + 1);
      && st'.live == st.live + [Block(p, |file| + 1), Block(q, n)] && st'.off == q + n
      && |der| <= n && p + |file| < q && q + n <= |st'.mem| == |st.mem|
      && st'.mem[k] ==
           if p <= k <= p + |file| then
             if k == p + |file| || (armor.Enclosed? && k == p + armor.end) then 0 else file[k - p]
           else if q <= k < q + n then
             if k < q + |der| then der[k - q] else 0
           else st.mem[k]
  {
    hide Place, FindArmor, Content, AllocFill, AfterLoad, Load, SecondOctets, Round16, RawOctets, Requests;
    LoadTwice(st, file);
    SecondIs(file);
    LoadIs(|st.mem|, st.off, file);
    var n, p, der := Requests(file)[1], Round16(st.off), Content(file).value;
    TwoBlocks(st, |file| + 1, RawOctets(file), n, SecondOctets(file), k);
    if p <= k <= p + |file| {
      RawAt(file, k - p);
    } else {
      var q := Round16(p + |file| + 1);
      assert q <= k < q + n ==> SecondOctets(file)[k - q] == if k < q + |der| then der[k - q] else 0;
    }
  }

  /** The loader's first request, and the copy of the file that goes into it. */
  method CopyFile(arena: Arena, file: seq<byte>) returns (ok: bool, armor: Armor)
    requires arena.Valid()
    modifies arena, arena.buffer
    ensures arena.Valid() && arena.Current() == AllocFill(old(arena.Current()), |file| + 1, RawOctets(file))
    ensures ok <==> Place(arena.buffer.Length, old(arena.off), |file| + 1).Some?
    ensures ok ==> armor == FindArmor(file)
    ensures ok ==> arena.off == Place(arena.buffer.Length, old(arena.off), |file| + 1).value + |file| + 1
  {
    hide Place, Clean, FindArmor, Round16;
    var flen := |file|;
    ghost var held := |arena.live|;
    var p := arena.Alloc(flen + 1);
    if p.None? { return false, Bare; }
    var raw := new byte[flen + 1](_ => 0);
    forall i | 0 <= i < flen { raw[i] := file[i]; }
    assert raw[..] == file + [0];
    armor := ReadArmor(raw, file);
    if armor.Enclosed? {
      raw[armor.end] := 0;
    }
    assert raw[..] == RawOctets(file);
    arena.Fill(p.value, raw[..], held);
    return true, armor;
  }

  /** load_der_or_pem_file on a file with these contents; -1 with nothing delivered, or 0. */
  method LoadDerOrPem(arena: Arena, file: seq<byte>) returns (rc: int, der: seq<byte>)
    requires arena.Valid()
    modifies arena, arena.buffer
    ensures arena.Valid() && arena.Current() == AfterLoad(old(arena.Current()), file)
    ensures var loaded := Load(arena.buffer.Length, old(arena.off), file);
      && rc == (if loaded.Some? then 0 else -1)
      && der == (if loaded.Some? then loaded.value else [])
  {
    hide Place, Clean, FindArmor, Content, AllServed, AllocFill, RawOctets, SecondOctets;
    if |file| <= 0 || |file| > FILE_MAX { return -1, []; }
    ServedIs(arena.buffer.Length, arena.off, Requests(file));
    var ok, armor := CopyFile(arena, file);
    if !ok {
      NothingCopied(old(arena.Current()), file);
      return -1, [];
    }
    if armor.Broken? {
      BrokenContent(file);
      return -1, [];
    }
    rc, der := Deliver(arena, file, armor);
  }

  lemma NothingCopied(st: State, file: seq<byte>)
    requires Place(|st.mem|, st.off, |file| + 1).None?
    ensures AllocFill(st, |file| + 1, RawOctets(file)) == st
  {
  }

  /** The loader's second request, and what goes into it. */
  method Deliver(arena: Arena, file: seq<byte>, armor: Armor) returns (rc: int, der: seq<byte>)
    requires arena.Valid() && armor == FindArmor(file) && !armor.Broken? && |file| <= FILE_MAX
    modifies arena, arena.buffer
    ensures arena.Valid() && |Requests(file)| == 2 && |SecondOctets(file)| <= Requests(file)[1]
    ensures arena.Current() == AllocFill(old(arena.Current()), Requests(file)[1], SecondOctets(file))
    ensures var loaded :=
        if Place(arena.buffer.Length, old(arena.off), Requests(file)[1]).None? then None else Content(file);
      && rc == (if loaded.Some? then 0 else -1)
      && der == (if loaded.Some? then loaded.value else [])
  {
    hide Find, Place, Clean, FindArmor, Content, Filter, Emitted, Round16;
    SecondFits(file);
    ghost var held := |arena.live|;
    match armor {
      case Bare =>
        BareLoads(file);
        var q := arena.Alloc(|file|);
        if q.None? { return -1, []; }
        arena.Fill(q.value, file, held);
        return 0, file;
      case Enclosed(body, end) =>
        var q := arena.Alloc(end - body);
        if q.None? { return -1, []; }
        var dec, decLen := DecodeBody(file, body, end);
        arena.Fill(q.value, dec, held);
        if decLen <= 0 { return -1, []; }
        return 0, dec[..decLen];
    }
  }

  /** The part of the loader that looks for the markers in the NUL-terminated copy of the file. */
  method ReadArmor(raw: array<byte>, ghost file: seq<byte>) returns (armor: Armor)
    requires raw[..] == file + [0]
    ensures armor == FindArmor(file)
  {
    hide Find, UpToNul;
    NulEnds(file);
    var text := UpToNul(raw[..]);
    var begin := Find(text, BEGIN);
    if begin.None? { return Bare; }
    var newline := Find(text[begin.value..], [NEWLINE]);
    var from := begin.value + if newline.Some? then newline.value else 0;
    var end := Find(text[from..], END);
    if newline.None? || end.None? { return Broken; }
    return Enclosed(from + 1, from + end.value);
  }

  lemma EnclosedContent(file: seq<byte>, body: nat, end: nat)
    requires FindArmor(file) == Enclosed(body, end)
    ensures var f := Filter(file[body..end]);
      && Content(file) == (if DecodeReturn(f) <= 0 then None else Some(Emitted(f)))
      && SecondOctets(file) == Emitted(f) + Zeros(end - body - |Emitted(f)|)
  {
    hide FindArmor, Filter, Emitted, Accepted;
  }

  lemma DecodedIntoZeros(f: seq<byte>, r: int, n: nat, after: seq<byte>)
    requires Decoded(f, r, Zeros(n), after)
    ensures |Emitted(f)| <= n && after == Emitted(f) + Zeros(n - |Emitted(f)|)
    ensures r == DecodeReturn(f) && r <= |after| && (r > 0 ==> after[..r] == Emitted(f))
  {
    hide Emitted, Accepted;
  }

  /** The part of the loader that decodes the body: the decoder's whole buffer and its result. */
  method DecodeBody(file: seq<byte>, body: nat, end: nat) returns (dec: seq<byte>, decLen: int)
    requires |file| <= FILE_MAX && FindArmor(file) == Enclosed(body, end)
    ensures dec == SecondOctets(file) && decLen <= |dec|
    ensures Content(file) == if decLen <= 0 then None else Some(dec[..decLen])
  {
    hide Filter, Emitted, Accepted, FindArmor, Content, SecondOctets, Decoded, DecodeReturn;
    EnclosedContent(file, body, end);
    var n := end - body;
    var b64 := file[body..end];
    var input := new byte[n](i requires 0 <= i < n => b64[i]);
    var buf := new byte[n](_ => 0);
    assert input[..n] == b64 && buf[..] == Zeros(n);
    decLen := DecodeBuffer(input, n, buf);
    dec := buf[..];
    DecodedIntoZeros(Filter(b64), decLen, n, dec);
  }
}
