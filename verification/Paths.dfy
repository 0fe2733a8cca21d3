/** How certgen names the files of a key pair, and finds the public one from the private one. */
module Paths {
  import opened Bytes

  const PATH_MAX: int := 512
  const BASE_MAX: int := PATH_MAX - 5

  const SLASH: byte := 47
  const BACKSLASH: byte := 92
  const DOT: byte := 46

  const KEY: seq<byte> := [107, 101, 121]
  const PUB: seq<byte> := [112, 117, 98]
  const PEM: seq<byte> := [112, 101, 109]
  const DER: seq<byte> := [100, 101, 114]

  function Min(a: nat, b: nat): nat {
    if a < b then a else b
  }

  /** strrchr */
  function LastOf(s: seq<byte>, c: byte): (r: Option<nat>)
    ensures r.Some? ==> r.value < |s| && s[r.value] == c && forall k :: r.value < k < |s| ==> s[k] != c
    ensures r.None? <==> c !in s
  {
    if s == [] then None
    else if s[|s| - 1] == c then Some(|s| - 1)
    else LastOf(s[..|s| - 1], c)
  }

  predicate KnownExt(s: seq<byte>) {
    s == KEY || s == PUB || s == PEM || s == DER
  }

  function Lower(c: byte): byte {
    if 65 <= c <= 90 then c + 32 else c
  }

  function Lowered(s: seq<byte>): (t: seq<byte>)
    ensures |t| == |s| && forall k :: 0 <= k < |s| ==> t[k] == Lower(s[k])
  {
    if s == [] then [] else [Lower(s[0])] + Lowered(s[1..])
  }

  /** The last directory separator; `windows` says whether a backslash is one. */
  function LastSlash(s: seq<byte>, windows: bool): Option<nat> {
    var slash, back := LastOf(s, SLASH), LastOf(s, BACKSLASH);
    if windows && back.Some? && (slash.None? || back.value > slash.value) then back else slash
  }

  /** Does the file name end in a dot and a known extension, in any case? */
  predicate HasKnownExt(s: seq<byte>, windows: bool) {
    var slash, dot := LastSlash(s, windows), LastOf(s, DOT);
    && dot.Some? && (slash.None? || dot.value > slash.value)
    && KnownExt(Lowered(s[dot.value + 1..]))
  }

  function Stem(s: seq<byte>, windows: bool): seq<byte> {
    if HasKnownExt(s, windows) then s[..LastOf(s, DOT).value] else s
  }

  function BaseMax(pathMax: nat): nat {
    Min(if pathMax > 5 then pathMax - 5 else 0, BASE_MAX)
  }

  datatype Pair = Pair(key: seq<byte>, pub: seq<byte>)

  function Named(base: seq<byte>): Pair {
    Pair(base + [DOT] + KEY, base + [DOT] + PUB)
  }

  /** What build_key_pub_paths leaves in the two buffers. */
  function Build(name: seq<byte>, windows: bool, pathMax: nat): Pair {
    var stem, max := Stem(name, windows), BaseMax(pathMax);
    if max == 0 then Pair([], []) else Named(stem[..Min(|stem|, max)])
  }

  /** How much of the key path derive_pub_path keeps. */
  function Kept(key: seq<byte>, outMax: nat): (n: nat)
    ensures n <= |key| && (outMax > 0 ==> n < outMax)
  {
    var dot := LastOf(key, DOT);
    var n := if dot.Some? then dot.value else |key|;
    if n + 5 >= outMax then if outMax > 5 then outMax - 5 else 0 else n
  }

  /** What derive_pub_path leaves in its buffer. */
  function Derive(key: seq<byte>, outMax: nat): seq<byte>
    requires outMax > 0
  {
    var n := Kept(key, outMax);
    key[..n] + if outMax - n >= 5 then [DOT] + PUB else []
  }

  // ----- Laws -----

  lemma KnownExtIs(s: seq<byte>)
    ensures KnownExt(s) <==> s == Ascii("key") || s == Ascii("pub") || s == Ascii("pem") || s == Ascii("der")
  {
    assert KEY == Ascii("key") && PUB == Ascii("pub") && PEM == Ascii("pem") && DER == Ascii("der");
  }

  /** Lowering maps the capitals to the small letters, and nothing else. */
  lemma LowerTable(c: byte)
    ensures |UPPER| == |LOWER| == 26
    ensures forall i :: 0 <= i < 26 && UPPER[i] as int == c ==> Lower(c) == LOWER[i] as int
    ensures (forall i :: 0 <= i < 26 ==> UPPER[i] as int != c) ==> Lower(c) == c
  {
    AsciiRuns();
    if 65 <= c <= 90 {
      assert UPPER[c - 65] as int == c;
    }
  }

  lemma NamedIs(base: seq<byte>)
    ensures Named(base) == Pair(base + Ascii(".key"), base + Ascii(".pub"))
  {
    assert [DOT] + KEY == Ascii(".key") && [DOT] + PUB == Ascii(".pub");
    assert base + [DOT] + KEY == base + ([DOT] + KEY) && base + [DOT] + PUB == base + ([DOT] + PUB);
  }

  lemma LastDot(base: seq<byte>, ext: seq<byte>)
    requires DOT !in ext
    ensures LastOf(base + [DOT] + ext, DOT) == Some(|base|)
  {
    var s := base + [DOT] + ext;
    assert s[|base|] == DOT && forall k :: |base| < k < |s| ==> s[k] in ext;
  }

  lemma LowerKnown(ext: seq<byte>)
    requires KnownExt(Lowered(ext))
    ensures DOT !in ext && SLASH !in ext && BACKSLASH !in ext
  {
    var lower := Lowered(ext);
    assert DOT !in lower && SLASH !in lower && BACKSLASH !in lower;
    forall k | 0 <= k < |ext| ensures ext[k] != DOT && ext[k] != SLASH && ext[k] != BACKSLASH {
      assert lower[k] in lower;
    }
  }

  lemma LastBeforeExt(base: seq<byte>, ext: seq<byte>, c: byte)
    requires c !in ext && c != DOT
    ensures var r := LastOf(base + [DOT] + ext, c); r.Some? ==> r.value < |base|
  {
    var s := base + [DOT] + ext;
    hide LastOf;
    var r := LastOf(s, c);
    if r.Some? && |base| < r.value {
      OctetOfExt(base, ext, r.value);
    }
    assert s[|base|] == DOT;
  }

  lemma OctetOfExt(base: seq<byte>, ext: seq<byte>, k: nat)
    requires |base| < k < |base| + 1 + |ext|
    ensures (base + [DOT] + ext)[k] == ext[k - |base| - 1] && (base + [DOT] + ext)[k] in ext
  {
  }

  /** A name that ends in a known extension, in any case, loses exactly that. */
  lemma StemOfNamed(base: seq<byte>, ext: seq<byte>, windows: bool)
    requires KnownExt(Lowered(ext))
    ensures Stem(base + [DOT] + ext, windows) == base
  {
    LowerKnown(ext);
    LastDot(base, ext);
    LastBeforeExt(base, ext, SLASH);
    LastBeforeExt(base, ext, BACKSLASH);
    hide LastOf, KnownExt, Lowered;
    var s := base + [DOT] + ext;
    assert s[|base| + 1..] == ext && s[..|base|] == base;
  }

  ghost predicate EndsIn(s: seq<byte>, base: seq<byte>, ext: seq<byte>) {
    s == base + Ascii(".") + ext && KnownExt(Lowered(ext))
  }

  /**
   * Any other name is its own stem. So the search for the last separator, which differs between the platforms, decides
   * nothing.
   */
  lemma StemIs(s: seq<byte>, windows: bool)
    ensures forall base, ext :: EndsIn(s, base, ext) ==> Stem(s, windows) == base
    ensures (forall base, ext :: !EndsIn(s, base, ext)) ==> Stem(s, windows) == s
    ensures Stem(s, windows) == Stem(s, !windows)
  {
    DotIs();
    hide KnownExt, Lowered, LastSlash, Ascii;
    forall base, ext | EndsIn(s, base, ext) ensures Stem(s, windows) == Stem(s, !windows) == base {
      StemOfNamed(base, ext, windows);
      StemOfNamed(base, ext, !windows);
    }
    if HasKnownExt(s, windows) || HasKnownExt(s, !windows) {
      var n := LastOf(s, DOT).value;
      assert s == s[..n] + [DOT] + s[n + 1..];
      assert EndsIn(s, s[..n], s[n + 1..]);
    }
  }

  lemma DotIs()
    ensures Ascii(".") == [DOT]
  {
  }

  /** Deriving cuts at the last dot, if there is one, or where ".pub" still fits, whichever comes first. */
  lemma DeriveIs(base: seq<byte>, ext: seq<byte>, outMax: nat)
    requires outMax > 5 && DOT !in ext
    ensures var n := if |base| < outMax - 5 then |base| else outMax - 5;
      && Derive(base + [DOT] + ext, outMax) == base[..n] + Ascii(".pub")
      && (DOT !in base ==> Derive(base, outMax) == base[..n] + Ascii(".pub"))
  {
    LastDot(base, ext);
    assert [DOT] + PUB == Ascii(".pub");
    var s, n := base + [DOT] + ext, if |base| < outMax - 5 then |base| else outMax - 5;
    assert s[..n] == base[..n];
  }

  /** A buffer too small for more holds ".pub" alone, or nothing. */
  lemma DeriveSmall(key: seq<byte>, outMax: nat)
    requires 0 < outMax <= 5
    ensures Derive(key, outMax) == if outMax == 5 then Ascii(".pub") else []
  {
    assert [DOT] + PUB == Ascii(".pub") && key[..0] == [];
  }

  lemma LowerCase(ext: seq<byte>)
    requires KnownExt(ext)
    ensures Lowered(ext) == ext
  {
  }

  /** Every path fits its buffer with the terminator, and holds the whole stem of a name that is short enough. */
  lemma BuiltPathsFit(name: seq<byte>, windows: bool, pathMax: nat)
    requires pathMax > 0
    ensures var p := Build(name, windows, pathMax);
      && |p.key| < pathMax && |p.pub| < pathMax && |p.key| <= 511
      && (pathMax > 5 && |Stem(name, windows)| <= (if pathMax < 512 then pathMax else 512) - 5 ==>
            p == Named(Stem(name, windows)))
  {
    hide Stem;
    var stem := Stem(name, windows);
    assert stem[..|stem|] == stem;
  }

  /** Both are the stem, cut to leave room for four octets and the terminator in the buffer and in 512 octets. */
  lemma BuildIs(name: seq<byte>, windows: bool, pathMax: nat)
    ensures var stem := Stem(name, windows);
      var room := if pathMax < 512 then pathMax - 5 else 507;
      Build(name, windows, pathMax) ==
        if room <= 0 then Pair([], [])
        else
          var base := if |stem| < room then stem else stem[..room];
          Pair(base + Ascii(".key"), base + Ascii(".pub"))
  {
    hide Stem, Named, Ascii;
    var stem := Stem(name, windows);
    assert stem[..|stem|] == stem;
    NamedIs(stem[..Min(|stem|, BaseMax(pathMax))]);
  }

  /** Deriving the public path from the built key path gives the built public path, but for buffers of five octets. */
  lemma DeriveMatchesBuild(name: seq<byte>, windows: bool, pathMax: nat)
    requires pathMax > 0
    ensures Derive(Build(name, windows, pathMax).key, pathMax) == Build(name, windows, pathMax).pub <==> pathMax != 5
  {
    hide Build, Derive, Stem, Ascii;
    BuildIs(name, windows, pathMax);
    if pathMax > 5 {
      var stem, room := Stem(name, windows), if pathMax < 512 then pathMax - 5 else 507;
      var base := if |stem| < room then stem else stem[..room];
      KeyEnding(base);
      DeriveIs(base, KEY, pathMax);
      assert base[..|base|] == base;
    } else {
      DeriveSmall([], pathMax);
      DotPubIs();
    }
  }

  lemma KeyEnding(base: seq<byte>)
    ensures base + Ascii(".key") == base + [DOT] + KEY && DOT !in KEY
  {
    NamedIs(base);
  }

  lemma DotPubIs()
    ensures |Ascii(".pub")| == 4
  {
  }

  /** Building from either path of a pair gives the same pair. */
  lemma RebuildIsStable(name: seq<byte>, windows: bool, pathMax: nat)
    ensures var p := Build(name, windows, pathMax);
      Build(p.key, windows, pathMax) == p && Build(p.pub, windows, pathMax) == p
  {
    hide Stem;
    var max := BaseMax(pathMax);
    if max != 0 {
      var stem := Stem(name, windows);
      var base := stem[..Min(|stem|, max)];
      LowerCase(KEY);
      LowerCase(PUB);
      StemOfNamed(base, KEY, windows);
      StemOfNamed(base, PUB, windows);
      assert base[..|base|] == base;
    }
  }

  /**
   * For a key path of any origin the two routines agree exactly when it has no dot, ends in a known extension, or has
   * its last dot past the cut: deriving takes every last dot for an extension's.
   */
  lemma DeriveAgreesIff(path: seq<byte>, windows: bool, pathMax: nat)
    requires 5 < pathMax <= 512
    ensures Derive(path, pathMax) == Build(path, windows, pathMax).pub <==>
              || DOT !in path || HasKnownExt(path, windows)
              || LastOf(path, DOT).value >= pathMax - 5
  {
    hide LastOf, LastSlash, KnownExt, Lowered;
    var n, stem := Kept(path, pathMax), Stem(path, windows);
    var base := stem[..Min(|stem|, pathMax - 5)];
    assert Derive(path, pathMax) == path[..n] + ([DOT] + PUB);
    assert Build(path, windows, pathMax).pub == base + ([DOT] + PUB);
    if |base| == n {
      assert base == path[..n];
    }
  }

  /** The path "./key" shows it: the derived path is ".pub". */
  lemma DeriveDropsDirectory(windows: bool)
    ensures var path := [DOT, SLASH] + KEY;
      && Derive(path, PATH_MAX) == [DOT] + PUB
      && Build(path, windows, PATH_MAX).pub == path + [DOT] + PUB
  {
    var path := [DOT, SLASH] + KEY;
    assert path[0] == DOT && path[1] == SLASH && path[2..] == KEY;
    assert LastOf(path, DOT) == Some(0);
    assert path[..5] == path;
  }

  // ----- The routines -----

  /** snprintf(dst, max, "%s", s) */
  method Print(dst: array<byte>, max: nat, s: cstring)
    requires 0 < max <= dst.Length
    modifies dst
    ensures UpToNul(dst[..]) == s[..Min(|s|, max - 1)]
  {
    var n := Min(|s|, max - 1);
    forall k | 0 <= k < n { dst[k] := s[k]; }
    dst[n] := 0;
    Terminated(dst[..], s[..n]);
  }

  lemma {:induction false} Terminated(s: seq<byte>, c: cstring)
    requires |c| < |s| && s[..|c|] == c && s[|c|] == 0
    ensures UpToNul(s) == c
  {
    if c != [] {
      assert s[0] == s[..|c|][0] == c[0];
      assert s[1..][..|c| - 1] == s[..|c|][1..] == c[1..];
      Terminated(s[1..], c[1..]);
    }
  }

  /** The loop that lower-cases up to seven octets of a suffix. */
  method LowerSuffix(suffix: cstring) returns (lower: cstring)
    ensures lower == Lowered(suffix[..Min(|suffix|, 7)])
  {
    lower := [];
    var j := 0;
    while j < 7 && j < |suffix|
      invariant j <= 7 && j <= |suffix| && |lower| == j
      invariant forall k :: 0 <= k < j ==> lower[k] == Lower(suffix[k])
    {
      lower := lower + [Lower(suffix[j])];
      j := j + 1;
    }
    var t := Lowered(suffix[..Min(|suffix|, 7)]);
    assert lower == t;
  }

  lemma KnownLength(s: seq<byte>)
    ensures KnownExt(s) ==> |s| == 3
  {
  }

  lemma SevenSuffice(suffix: seq<byte>)
    ensures KnownExt(Lowered(suffix[..Min(|suffix|, 7)])) <==> KnownExt(Lowered(suffix))
  {
    hide KnownExt, Lowered;
    KnownLength(Lowered(suffix));
    KnownLength(Lowered(suffix[..Min(|suffix|, 7)]));
    if |suffix| <= 7 {
      assert suffix[..|suffix|] == suffix;
    }
  }

  /** The part of build_key_pub_paths that looks for an extension. */
  method StemLength(name: cstring, windows: bool) returns (n: nat)
    ensures n <= |name| && name[..n] == Stem(name, windows)
  {
    KnownLength(Lowered([]));
    hide LastOf, KnownExt, Lowered;
    var lastSlash, lastDot := LastOf(name, SLASH), LastOf(name, DOT);
    if windows {
      var lastBack := LastOf(name, BACKSLASH);
      if lastBack.Some? && (lastSlash.None? || lastBack.value > lastSlash.value) { lastSlash := lastBack; }
    }
    assert lastSlash == LastSlash(name, windows);
    hide LastSlash;
    n := |name|;
    assert name[..n] == name;
    if lastDot.Some? && (lastSlash.None? || lastDot.value > lastSlash.value) && lastDot.value + 1 < |name| {
      var suffix := name[lastDot.value + 1..];
      var lower := LowerSuffix(suffix);
      SevenSuffice(suffix);
      if KnownExt(lower) {
        n := lastDot.value;
      }
    } else if lastDot.Some? {
      assert lastDot.value + 1 == |name| ==> name[lastDot.value + 1..] == [];
    }
  }

  /** build_key_pub_paths */
  method BuildKeyPubPaths(name: cstring, windows: bool, keyPath: array<byte>, pubPath: array<byte>, pathMax: nat)
    requires keyPath != pubPath && pathMax <= keyPath.Length && pathMax <= pubPath.Length
    modifies keyPath, pubPath
    ensures pathMax == 0 ==> keyPath[..] == old(keyPath[..]) && pubPath[..] == old(pubPath[..])
    ensures pathMax > 0 ==>
              Pair(UpToNul(keyPath[..]), UpToNul(pubPath[..])) == Build(name, windows, pathMax)
  {
    hide Stem, UpToNul, Named;
    if pathMax == 0 { return; }
    var maxBase := if pathMax > 5 then pathMax - 5 else 0;
    if maxBase > BASE_MAX { maxBase := BASE_MAX; }
    if maxBase == 0 {
      Print(keyPath, 1, []);
      Print(pubPath, 1, []);
      return;
    }
    var baseLen := StemLength(name, windows);
    ghost var stem := name[..baseLen];
    if baseLen > BASE_MAX { baseLen := BASE_MAX; }
    if baseLen > maxBase { baseLen := maxBase; }
    assert name[..baseLen] == stem[..Min(|stem|, maxBase)];
    PrintPair(name[..baseLen], keyPath, pubPath, pathMax);
  }

  method PrintPair(base: cstring, keyPath: array<byte>, pubPath: array<byte>, pathMax: nat)
    requires keyPath != pubPath && |base| + 5 <= pathMax <= keyPath.Length && pathMax <= pubPath.Length
    modifies keyPath, pubPath
    ensures Pair(UpToNul(keyPath[..]), UpToNul(pubPath[..])) == Named(base)
  {
    var pair := Named(base);
    Print(keyPath, pathMax, pair.key);
    Print(pubPath, pathMax, pair.pub);
    assert pair.key[..|pair.key|] == pair.key && pair.pub[..|pair.pub|] == pair.pub;
  }

  /** derive_pub_path */
  method DerivePubPath(keyPath: cstring, out: array<byte>, outMax: nat)
    requires outMax <= out.Length
    modifies out
    ensures outMax == 0 ==> out[..] == old(out[..])
    ensures outMax > 0 ==> UpToNul(out[..]) == Derive(keyPath, outMax)
  {
    hide LastOf, UpToNul;
    if outMax == 0 { return; }
    var dot := LastOf(keyPath, DOT);
    var baseLen := if dot.Some? then dot.value else |keyPath|;
    if baseLen + 5 >= outMax {
      baseLen := if outMax > 5 then outMax - 5 else 0;
    }
    var path := keyPath[..baseLen];
    if outMax - baseLen >= 5 {
      path := path + ([DOT] + PUB);
    }
    Print(out, outMax, path);
    assert path[..|path|] == path;
  }
}
