/** The aggregation of scripts/map_size_report.py, from classified map-file lines to files and categories. */
module MapReport {
  import opened Bytes
  import opened Tally

  /** A line of the map file, by the first test it passes; a path is normalised, and empty when it is to be skipped. */
  datatype Line =
    | Marker
    | Load
    | Header
    | Star
    | NameOnly(section: string)
    | Contribution(section: string, size: nat, path: string)
    | SizePath(size: nat, path: string)
    | Other

  // ----- Sections -----

  function StripDots(s: string): string {
    if s != "" && s[0] == '.' then StripDots(s[1..]) else s
  }

  function UpToDot(s: string): string {
    if s == "" || s[0] == '.' then "" else [s[0]] + UpToDot(s[1..])
  }

  /** The section name up to its second dot. */
  function BaseSection(s: string): string {
    "." + UpToDot(StripDots(s))
  }

  predicate InFlash(base: string) {
    || base == ".text" || base == ".rodata" || base == ".isr_vector" || base == ".ARM.exidx"
    || base == ".ARM.extab" || base == ".init" || base == ".fini" || base == ".data"
  }

  predicate InRam(base: string) {
    base == ".data" || base == ".bss"
  }

  // ----- Contributions -----

  datatype Found = Found(section: string, size: nat, path: string)

  /** The section name that the lines read so far leave pending, empty when none is. */
  function Pending(ls: seq<Line>): string {
    if ls == [] then ""
    else
      match ls[|ls| - 1]
      case Header => ""
      case NameOnly(s) => s
      case Contribution(_, _, _) => ""
      case SizePath(_, _) => ""
      case _ => Pending(ls[..|ls| - 1])
  }

  /** What a line contributes when `pending` is pending. */
  function FoundIn(l: Line, pending: string): Option<Found> {
    match l
    case Contribution(s, n, p) => Some(Found(s, n, p))
    case SizePath(n, p) => if pending != "" then Some(Found(pending, n, p)) else None
    case _ => None
  }

  predicate Counted(f: Found) {
    f.size > 0 && f.path != "" && (InFlash(BaseSection(f.section)) || InRam(BaseSection(f.section)))
  }

  /** The contributions that count, in order. */
  function Accepted(ls: seq<Line>): seq<Found> {
    if ls == [] then []
    else
      var n := |ls| - 1;
      var f := FoundIn(ls[n], Pending(ls[..n]));
      Accepted(ls[..n]) + if f.Some? && Counted(f.value) then [f.value] else []
  }

  /** Does a line leave the pending section alone? */
  predicate Keeps(l: Line) {
    l.Marker? || l.Load? || l.Star? || l.Other?
  }

  /** A section is pending exactly when its name line is the last line that is not passed over. */
  lemma {:induction false} PendingIff(ls: seq<Line>, s: string)
    requires s != ""
    ensures Pending(ls) == s <==>
              exists j :: 0 <= j < |ls| && ls[j] == NameOnly(s) && forall k :: j < k < |ls| ==> Keeps(ls[k])
  {
    if ls != [] {
      var n := |ls| - 1;
      PendingIff(ls[..n], s);
      if Keeps(ls[n]) {
        if Pending(ls) == s {
          var j :| 0 <= j < n && ls[..n][j] == NameOnly(s) && forall k :: j < k < n ==> Keeps(ls[..n][k]);
          assert ls[j] == NameOnly(s);
          assert forall k :: j < k < n ==> Keeps(ls[k]) by {
            assert forall k :: j < k < n ==> ls[..n][k] == ls[k];
          }
        }
        if j :| 0 <= j < |ls| && ls[j] == NameOnly(s) && forall k :: j < k < |ls| ==> Keeps(ls[k]) {
          assert ls[..n][j] == NameOnly(s);
        }
      } else if Pending(ls) == s {
        assert ls[n] == NameOnly(s);
      }
    }
  }

  lemma AcceptedStep(x: seq<Line>, l: Line)
    ensures var f := FoundIn(l, Pending(x));
      Accepted(x + [l]) == if f.Some? && Counted(f.value) then Accepted(x) + [f.value] else Accepted(x)
  {
    assert (x + [l])[..|x|] == x;
  }

  lemma PendingStep(x: seq<Line>, l: Line)
    ensures Keeps(l) ==> Pending(x + [l]) == Pending(x)
    ensures !Keeps(l) ==> Pending(x + [l]) == if l.NameOnly? then l.section else ""
  {
    assert (x + [l])[..|x|] == x;
  }

  lemma {:induction false} SameContinuation(x: seq<Line>, y: seq<Line>, b: seq<Line>)
    requires Pending(x) == Pending(y) && Accepted(x) == Accepted(y)
    ensures Pending(x + b) == Pending(y + b) && Accepted(x + b) == Accepted(y + b)
  {
    hide *;
    if b == [] {
      assert x + b == x && y + b == y;
    } else {
      var c, l := b[..|b| - 1], b[|b| - 1];
      SameContinuation(x, y, c);
      AcceptedStep(x + c, l);
      AcceptedStep(y + c, l);
      PendingStep(x + c, l);
      PendingStep(y + c, l);
      assert x + c + [l] == x + b && y + c + [l] == y + b;
    }
  }

  lemma {:induction false} KeepsAccepted(x: seq<Line>, mid: seq<Line>)
    requires forall k :: 0 <= k < |mid| ==> Keeps(mid[k])
    ensures Pending(x + mid) == Pending(x) && Accepted(x + mid) == Accepted(x)
  {
    if mid == [] {
      assert x + mid == x;
    } else {
      assert (x + mid)[..|x + mid| - 1] == x + mid[..|mid| - 1];
      KeepsAccepted(x, mid[..|mid| - 1]);
    }
  }

  /** A contribution split over two lines counts like the same contribution on one. */
  lemma TwoLineForm(a: seq<Line>, s: string, mid: seq<Line>, n: nat, p: string, b: seq<Line>)
    requires s != "" && forall k :: 0 <= k < |mid| ==> Keeps(mid[k])
    ensures Accepted(a + [NameOnly(s)] + mid + [SizePath(n, p)] + b) == Accepted(a + mid + [Contribution(s, n, p)] + b)
  {
    FoundInStep(s, n, p);
    hide *;
    var x, y := a + [NameOnly(s)] + mid, a + mid;
    AcceptedStep(a, NameOnly(s));
    PendingStep(a, NameOnly(s));
    KeepsAccepted(a + [NameOnly(s)], mid);
    KeepsAccepted(a, mid);
    AcceptedStep(x, SizePath(n, p));
    AcceptedStep(y, Contribution(s, n, p));
    PendingStep(x, SizePath(n, p));
    PendingStep(y, Contribution(s, n, p));
    SameContinuation(x + [SizePath(n, p)], y + [Contribution(s, n, p)], b);
  }

  lemma FoundInStep(s: string, n: nat, p: string)
    requires s != ""
    ensures !Keeps(NameOnly(s)) && !Keeps(SizePath(n, p)) && !Keeps(Contribution(s, n, p))
    ensures forall q :: FoundIn(NameOnly(s), q) == None && FoundIn(Contribution(s, n, p), q) == Some(Found(s, n, p))
    ensures FoundIn(SizePath(n, p), s) == Some(Found(s, n, p))
  {
  }

  lemma {:induction false} NoDotInside(s: string)
    ensures '.' !in UpToDot(s)
  {
    if s != "" && s[0] != '.' {
      NoDotInside(s[1..]);
    }
  }

  lemma {:induction false} UpToDotIs(s: string, rest: string)
    requires '.' !in s && (rest == "" || rest[0] == '.')
    ensures UpToDot(s + rest) == s
  {
    if s == "" {
      assert s + rest == rest;
    } else {
      assert (s + rest)[1..] == s[1..] + rest;
      UpToDotIs(s[1..], rest);
    }
  }

  lemma {:induction false} StripDotsIs(dots: string, rest: string)
    requires (forall k :: 0 <= k < |dots| ==> dots[k] == '.') && (rest == "" || rest[0] != '.')
    ensures StripDots(dots + rest) == rest
  {
    if dots == "" {
      assert dots + rest == rest;
    } else {
      assert (dots + rest)[1..] == dots[1..] + rest;
      StripDotsIs(dots[1..], rest);
    }
  }

  /** A section's base is one dot and the word that follows its leading dots, up to the next one. */
  lemma BaseSectionIs(dots: string, word: string, rest: string)
    requires forall k :: 0 <= k < |dots| ==> dots[k] == '.'
    requires '.' !in word && (rest == "" || rest[0] == '.') && (word == "" ==> rest == "")
    ensures BaseSection(dots + word + rest) == "." + word
  {
    assert dots + word + rest == dots + (word + rest);
    StripDotsIs(dots, word + rest);
    UpToDotIs(word, rest);
  }

  /** A name is listed when it stands in one of the two lists. */
  predicate Listed(l: string) {
    InFlash(l) || InRam(l)
  }

  /** A listed name without a second dot is what it and its subsections reduce to. */
  lemma PlainReduces(l: string, rest: string)
    requires Listed(l) && '.' !in l[1..] && (rest == "" || rest[0] == '.')
    ensures BaseSection(l + rest) == l
  {
    assert l[0] == '.' && l[1] != '.';
    assert (l + rest)[1..] == l[1..] + rest;
    assert StripDots(l[1..] + rest) == l[1..] + rest;
    UpToDotIs(l[1..], rest);
  }

  lemma ArmReduces(tail: string)
    requires tail != "" && tail[0] == '.'
    ensures BaseSection(".ARM" + tail) == ".ARM"
  {
    var name := "ARM" + tail;
    assert (".ARM" + tail)[1..] == name && name[0] == 'A';
    assert StripDots(name) == name && StripDots(".ARM" + tail) == name;
    UpToDotIs("ARM", tail);
  }

  lemma ArmIsNotListed()
    ensures !Listed(".ARM")
  {
    assert |".ARM"| == 4 && ".ARM"[1] == 'A' && ".bss"[1] == 'b';
  }

  lemma DottedNames(l: string)
    requires Listed(l) && '.' in l[1..]
    ensures l == ".ARM" + ".exidx" || l == ".ARM" + ".extab"
  {
    assert l == ".ARM.exidx" || l == ".ARM.extab";
    hide InFlash, InRam;
    assert ".ARM" + ".exidx" == ".ARM.exidx" && ".ARM" + ".extab" == ".ARM.extab";
  }

  /** The two others reduce to ".ARM", which is not listed. */
  lemma DottedReduces(l: string, rest: string)
    requires Listed(l) && '.' in l[1..]
    ensures BaseSection(l + rest) == ".ARM" && !Listed(".ARM")
  {
    hide Listed, BaseSection;
    ArmIsNotListed();
    DottedNames(l);
    var tail := if l == ".ARM" + ".exidx" then ".exidx" else ".extab";
    assert l + rest == ".ARM" + (tail + rest);
    ArmReduces(tail + rest);
  }

  /** A listed flash section, or a subsection of one, is taken for flash exactly when its name has no second dot. */
  lemma ListedMatchesIff(l: string, rest: string)
    requires InFlash(l) && (rest == "" || rest[0] == '.')
    ensures InFlash(BaseSection(l + rest)) <==> '.' !in l[1..]
  {
    hide BaseSection;
    if '.' in l[1..] {
      DottedReduces(l, rest);
    } else {
      PlainReduces(l, rest);
    }
  }

  /** And a contribution from a listed section counts exactly when the name has no second dot and size and path do. */
  lemma ListedCountsIff(l: string, rest: string, n: nat, p: string)
    requires Listed(l) && (rest == "" || rest[0] == '.')
    ensures Counted(Found(l + rest, n, p)) <==> '.' !in l[1..] && n > 0 && p != ""
  {
    hide BaseSection;
    if '.' in l[1..] {
      DottedReduces(l, rest);
    } else {
      PlainReduces(l, rest);
    }
  }

  /** So these seven bases are the ones that count. */
  lemma CountedIff(f: Found)
    ensures var b := BaseSection(f.section);
      Counted(f) <==>
        && f.size > 0 && f.path != ""
        && (b == ".text" || b == ".rodata" || b == ".isr_vector" || b == ".init" || b == ".fini" || b == ".data"
            || b == ".bss")
  {
    InnerDotNeverMatches(f.section);
    hide BaseSection;
  }

  /** So nothing from .ARM.exidx counts, although it is listed. */
  lemma ExidxIsDropped(n: nat, p: string)
    ensures InFlash(".ARM.exidx") && !Counted(Found(".ARM.exidx", n, p))
  {
    assert ".ARM.exidx"[1..][3] == '.';
    assert ".ARM.exidx" + "" == ".ARM.exidx";
    ListedCountsIff(".ARM.exidx", "", n, p);
  }

  /** No section reduces to the two names with an inner dot: their entries in the flash list match nothing. */
  lemma InnerDotNeverMatches(s: string)
    ensures BaseSection(s) != ".ARM.exidx" && BaseSection(s) != ".ARM.extab"
  {
    NoDotInside(StripDots(s));
    assert ".ARM.exidx"[4] == '.' && ".ARM.extab"[4] == '.';
    var b := BaseSection(s);
    assert forall k :: 1 <= k < |b| ==> b[k] in UpToDot(StripDots(s));
  }

  // ----- Sizes per file -----

  datatype Sizes = Sizes(flash: nat, ram: nat, text: nat, rodata: nat, dataFlash: nat, otherFlash: nat,
                         dataRam: nat, bss: nat)

  function Plus(a: Sizes, b: Sizes): Sizes {
    Sizes(a.flash + b.flash, a.ram + b.ram, a.text + b.text, a.rodata + b.rodata, a.dataFlash + b.dataFlash,
          a.otherFlash + b.otherFlash, a.dataRam + b.dataRam, a.bss + b.bss)
  }

  const NONE: Sizes := Sizes(0, 0, 0, 0, 0, 0, 0, 0)
  const SIZES: Adder<Sizes> := Adder(NONE, Plus)

  /** What one contribution adds to its file's sizes. */
  function Amount(base: string, n: nat): Sizes {
    Sizes(if InFlash(base) then n else 0,
          if InRam(base) then n else 0,
          if base == ".text" then n else 0,
          if base == ".rodata" then n else 0,
          if base == ".data" then n else 0,
          if InFlash(base) && base != ".text" && base != ".rodata" && base != ".data" then n else 0,
          if base == ".data" then n else 0,
          if base == ".bss" then n else 0)
  }

  function ItemOf(f: Found): Entry<string, Sizes> {
    Entry(f.path, Amount(BaseSection(f.section), f.size))
  }

  function Items(fs: seq<Found>): (items: seq<Entry<string, Sizes>>)
    ensures |items| == |fs| && forall i :: 0 <= i < |fs| ==> items[i] == ItemOf(fs[i])
  {
    if fs == [] then [] else Items(fs[..|fs| - 1]) + [ItemOf(fs[|fs| - 1])]
  }

  /** Flash is the sum of its parts, RAM that of initialised and zeroed data, and ".data" counts in both. */
  ghost predicate Balanced(z: Sizes) {
    && z.flash == z.text + z.rodata + z.dataFlash + z.otherFlash
    && z.ram == z.dataRam + z.bss && z.dataRam == z.dataFlash
  }

  lemma AmountBalanced(base: string, n: nat)
    ensures Balanced(Amount(base, n))
  {
    if base == ".bss" {
      assert base[1] == 'b';
    }
  }

  lemma PlusBalanced(a: Sizes, b: Sizes)
    requires Balanced(a) && Balanced(b)
    ensures Balanced(Plus(a, b)) && Plus(a, b).flash == a.flash + b.flash && Plus(a, b).ram == a.ram + b.ram
  {
  }

  lemma AddUpItems(fs: seq<Found>, path: string)
    requires fs != []
    ensures var n := |fs| - 1;
      var before := AddUp(Items(fs[..n]), SIZES, path);
      AddUp(Items(fs), SIZES, path) == if fs[n].path == path then Plus(before, ItemOf(fs[n]).value) else before
  {
    hide Plus, Amount, InFlash, InRam, BaseSection;
    assert Items(fs)[..|fs| - 1] == Items(fs[..|fs| - 1]);
  }

  lemma {:induction false} AddUpBalanced(fs: seq<Found>, path: string)
    ensures Balanced(AddUp(Items(fs), SIZES, path))
  {
    hide Plus, Amount, Balanced, BaseSection;
    if fs == [] {
      NoneBalanced();
    } else {
      var n := |fs| - 1;
      AddUpItems(fs, path);
      AddUpBalanced(fs[..n], path);
      AmountBalanced(BaseSection(fs[n].section), fs[n].size);
      PlusBalanced(AddUp(Items(fs[..n]), SIZES, path), ItemOf(fs[n]).value);
    }
  }

  lemma NoneBalanced()
    ensures Balanced(NONE)
  {
  }

  /** Contributions that count add something. */
  lemma {:induction false} AddUpPositive(fs: seq<Found>, path: string)
    requires HasKey(Items(fs), path) && forall i :: 0 <= i < |fs| ==> Counted(fs[i])
    ensures var z := AddUp(Items(fs), SIZES, path); z.flash + z.ram > 0
  {
    hide Amount, BaseSection, Counted;
    var n := |fs| - 1;
    var init := fs[..n];
    AddUpItems(fs, path);
    HasKeyLast(Items(fs), path);
    assert Items(fs)[..n] == Items(init);
    if fs[n].path == path {
      CountedAmount(fs[n]);
    } else {
      AddUpPositive(init, path);
    }
  }

  lemma CountedAmount(f: Found)
    ensures Counted(f) ==> var z := ItemOf(f).value; z.flash + z.ram > 0
  {
  }

  lemma {:induction false} AcceptedCounted(ls: seq<Line>)
    ensures forall i :: 0 <= i < |Accepted(ls)| ==> Counted(Accepted(ls)[i])
  {
    hide Counted;
    if ls != [] {
      AcceptedCounted(ls[..|ls| - 1]);
    }
  }

  // ----- Rows -----

  datatype Row = Row(file: string, category: string, flash: nat, ram: nat, text: nat, rodata: nat,
                     dataFlash: nat, bss: nat)

  /** The category of a normalised path, from its leading directories. */
  function RollupCategory(path: string): string {
    if path == "" then "other"
    else if "benchmarks/" <= path then "benchmark-shim"
    else if "utility/" <= path then "noxtls-utility"
    else if "noxtls-lib/tls/" <= path then "noxtls-tls"
    else if "noxtls-lib/certs/" <= path then "noxtls-certs"
    else if "noxtls-lib/pkc/" <= path then "noxtls-pkc"
    else if "noxtls-lib/encryption/" <= path then "noxtls-encryption"
    else if "noxtls-lib/mdigest/" <= path then "noxtls-hash"
    else if "noxtls-lib/mac/" <= path then "noxtls-mac"
    else if "noxtls-lib/kdf/" <= path then "noxtls-kdf"
    else if "noxtls-lib/drbg/" <= path then "noxtls-drbg"
    else if "noxtls-lib/common/" <= path then "noxtls-common"
    else if "toolchain/libc/" <= path then "libc"
    else if "toolchain/libgcc/" <= path then "libgcc"
    else if "toolchain/libm/" <= path then "libm"
    else if "toolchain/libnosys/" <= path then "libnosys"
    else "other"
  }

  function RowOf(e: Entry<string, Sizes>): Row {
    var z := e.value;
    Row(e.key, RollupCategory(e.key), z.flash, z.ram, z.text, z.rodata, z.dataFlash, z.bss)
  }

  /** The directories that have a category of their own. */
  const CATEGORIES: seq<(string, string)> := [
    ("benchmarks/", "benchmark-shim"), ("utility/", "noxtls-utility"), ("noxtls-lib/tls/", "noxtls-tls"),
    ("noxtls-lib/certs/", "noxtls-certs"), ("noxtls-lib/pkc/", "noxtls-pkc"),
    ("noxtls-lib/encryption/", "noxtls-encryption"), ("noxtls-lib/mdigest/", "noxtls-hash"),
    ("noxtls-lib/mac/", "noxtls-mac"), ("noxtls-lib/kdf/", "noxtls-kdf"), ("noxtls-lib/drbg/", "noxtls-drbg"),
    ("noxtls-lib/common/", "noxtls-common"), ("toolchain/libc/", "libc"), ("toolchain/libgcc/", "libgcc"),
    ("toolchain/libm/", "libm"), ("toolchain/libnosys/", "libnosys")]

  lemma PrefixAt(p: string, path: string, k: nat)
    requires p <= path && k < |p|
    ensures path[k] == p[k]
  {
  }

  lemma RollupLibrary(path: string, i: nat)
    requires 2 <= i < 11 && CATEGORIES[i].0 <= path
    ensures RollupCategory(path) == CATEGORIES[i].1
  {
    var p := CATEGORIES[i].0;
    PrefixAt(p, path, 0);
    PrefixAt(p, path, 11);
    PrefixAt(p, path, 12);
  }

  lemma RollupToolchain(path: string, i: nat)
    requires 11 <= i < |CATEGORIES| && CATEGORIES[i].0 <= path
    ensures RollupCategory(path) == CATEGORIES[i].1
  {
    var p := CATEGORIES[i].0;
    PrefixAt(p, path, 0);
    PrefixAt(p, path, 13);
  }

  /** The order of the tests does not matter: a path has at most one of the directories, which decides its category. */
  lemma RollupIsTable(path: string, i: nat)
    requires i < |CATEGORIES| && CATEGORIES[i].0 <= path
    ensures RollupCategory(path) == CATEGORIES[i].1
  {
    if i < 2 {
      PrefixAt(CATEGORIES[i].0, path, 0);
    } else if i < 11 {
      hide RollupCategory;
      RollupLibrary(path, i);
    } else {
      hide RollupCategory;
      RollupToolchain(path, i);
    }
  }

  lemma RollupOther(path: string)
    requires forall i :: 0 <= i < |CATEGORIES| ==> !(CATEGORIES[i].0 <= path)
    ensures RollupCategory(path) == "other"
  {
    assert !(CATEGORIES[0].0 <= path) && !(CATEGORIES[1].0 <= path) && !(CATEGORIES[2].0 <= path);
    assert !(CATEGORIES[3].0 <= path) && !(CATEGORIES[4].0 <= path) && !(CATEGORIES[5].0 <= path);
    assert !(CATEGORIES[6].0 <= path) && !(CATEGORIES[7].0 <= path) && !(CATEGORIES[8].0 <= path);
    assert !(CATEGORIES[9].0 <= path) && !(CATEGORIES[10].0 <= path) && !(CATEGORIES[11].0 <= path);
    assert !(CATEGORIES[12].0 <= path) && !(CATEGORIES[13].0 <= path) && !(CATEGORIES[14].0 <= path);
  }

  /** The rows of a table, without files that take neither flash nor RAM. */
  function TableRows(t: seq<Entry<string, Sizes>>): seq<Row> {
    if t == [] then []
    else
      var e := t[|t| - 1];
      TableRows(t[..|t| - 1]) + if e.value.flash == 0 && e.value.ram == 0 then [] else [RowOf(e)]
  }

  function RowSize(r: Row): int {
    r.flash + r.ram
  }

  /** The rows of a map file's lines after the marker. */
  function Rows(ls: seq<Line>): seq<Row> {
    SortDown(TableRows(Group(Items(Accepted(ls)), SIZES)), RowSize)
  }

  /** The sizes of a file: all its contributions that count, added up. */
  function FileSizes(ls: seq<Line>, path: string): Sizes {
    AddUp(Items(Accepted(ls)), SIZES, path)
  }

  lemma {:induction false} NoRowDropped(t: seq<Entry<string, Sizes>>)
    requires forall i :: 0 <= i < |t| ==> t[i].value.flash + t[i].value.ram > 0
    ensures |TableRows(t)| == |t| && forall i :: 0 <= i < |t| ==> TableRows(t)[i] == RowOf(t[i])
  {
    hide RowOf;
    if t != [] {
      NoRowDropped(t[..|t| - 1]);
    }
  }

  /** The table behind the rows: no entry is empty, so the script's last filter drops nothing. */
  lemma TableOf(ls: seq<Line>)
    ensures var t := Group(Items(Accepted(ls)), SIZES);
      && Distinct(t) && |TableRows(t)| == |t|
      && (forall i :: 0 <= i < |t| ==> t[i].value == FileSizes(ls, t[i].key) && TableRows(t)[i] == RowOf(t[i]))
      && (forall i :: 0 <= i < |t| ==> Balanced(t[i].value))
  {
    hide *;
    var fs := Accepted(ls);
    var t := Group(Items(fs), SIZES);
    GroupIsExact(Items(fs), SIZES, "");
    AcceptedCounted(ls);
    forall i | 0 <= i < |t|
      ensures t[i].value == FileSizes(ls, t[i].key) && Balanced(t[i].value)
      ensures t[i].value.flash + t[i].value.ram > 0
    {
      var k := t[i].key;
      GroupIsExact(Items(fs), SIZES, k);
      LookupAt(t, SIZES, i);
      assert HasKey(t, k) by { KeyAt(t, i); }
      AddUpBalanced(fs, k);
      AddUpPositive(fs, k);
      FileSizesIs(ls, k);
    }
    NoRowDropped(t);
  }

  lemma KeyAt(t: seq<Entry<string, Sizes>>, i: nat)
    requires i < |t|
    ensures HasKey(t, t[i].key)
  {
  }

  lemma FileSizesIs(ls: seq<Line>, path: string)
    ensures FileSizes(ls, path) == AddUp(Items(Accepted(ls)), SIZES, path)
  {
  }

  // ----- Rows are exact, and nothing is lost -----

  function InFlashOf(path: string): Found -> int {
    (f: Found) => if f.path == path && InFlash(BaseSection(f.section)) then f.size else 0
  }

  function InRamOf(path: string): Found -> int {
    (f: Found) => if f.path == path && InRam(BaseSection(f.section)) then f.size else 0
  }

  /** The size of a contribution to a file from a section. */
  function InSection(path: string, base: string): Found -> int {
    (f: Found) => if f.path == path && BaseSection(f.section) == base then f.size else 0
  }

  /** Each size of a file is the sum over the contributions to it that count, of the sections it stands for. */
  lemma {:induction false} AddUpIsSum(fs: seq<Found>, path: string)
    ensures var z := AddUp(Items(fs), SIZES, path);
      && z.flash == Sum(fs, InFlashOf(path)) && z.ram == Sum(fs, InRamOf(path))
      && z.text == Sum(fs, InSection(path, ".text")) && z.rodata == Sum(fs, InSection(path, ".rodata"))
      && z.dataFlash == Sum(fs, InSection(path, ".data")) && z.bss == Sum(fs, InSection(path, ".bss"))
  {
    hide InFlash, InRam, BaseSection;
    if fs != [] {
      AddUpIsSum(fs[..|fs| - 1], path);
      AddUpItems(fs, path);
    }
  }

  lemma FileSizesAre(ls: seq<Line>, path: string)
    ensures var z, fs := FileSizes(ls, path), Accepted(ls);
      && z.flash == Sum(fs, InFlashOf(path)) && z.ram == Sum(fs, InRamOf(path))
      && z.text == Sum(fs, InSection(path, ".text")) && z.rodata == Sum(fs, InSection(path, ".rodata"))
      && z.dataFlash == Sum(fs, InSection(path, ".data")) && z.bss == Sum(fs, InSection(path, ".bss"))
  {
    AddUpIsSum(Accepted(ls), path);
  }

  function FileName(r: Row): string {
    r.file
  }

  /** Files with a contribution that counts have one row, others none, and each row holds its file's sizes. */
  lemma RowsAreExact(ls: seq<Line>, path: string)
    ensures Sum(Rows(ls), Named(FileName, path)) ==
              if exists i :: 0 <= i < |Accepted(ls)| && Accepted(ls)[i].path == path then 1 else 0
    ensures forall r :: r in Rows(ls) ==> r == RowOf(Entry(r.file, FileSizes(ls, r.file)))
  {
    hide RowSize, FileSizes, Accepted, Balanced;
    var fs := Accepted(ls);
    var t := Group(Items(fs), SIZES);
    TableOf(ls);
    GroupIsExact(Items(fs), SIZES, path);
    SortConserves(TableRows(t), RowSize, Named(FileName, path));
    NamedOnce(t, TableRows(t), FileName, path);
    assert HasKey(Items(fs), path) <==> exists i :: 0 <= i < |fs| && fs[i].path == path by {
      ItemKeys(fs, path);
    }
    forall r | r in Rows(ls) ensures r == RowOf(Entry(r.file, FileSizes(ls, r.file))) {
      SortMembers(TableRows(t), RowSize, r);
      var i :| 0 <= i < |TableRows(t)| && TableRows(t)[i] == r;
      assert r == RowOf(t[i]);
    }
  }

  lemma ItemKeys(fs: seq<Found>, path: string)
    ensures HasKey(Items(fs), path) <==> exists i :: 0 <= i < |fs| && fs[i].path == path
  {
    if i :| 0 <= i < |fs| && fs[i].path == path {
      assert Items(fs)[i].key == path;
    }
  }

  /** Each field of a row, by the contributions that count. */
  lemma RowsHold(ls: seq<Line>, r: Row)
    requires r in Rows(ls)
    ensures var fs := Accepted(ls);
      && r.category == RollupCategory(r.file)
      && r.flash == Sum(fs, InFlashOf(r.file)) && r.ram == Sum(fs, InRamOf(r.file))
      && r.text == Sum(fs, InSection(r.file, ".text")) && r.rodata == Sum(fs, InSection(r.file, ".rodata"))
      && r.dataFlash == Sum(fs, InSection(r.file, ".data")) && r.bss == Sum(fs, InSection(r.file, ".bss"))
  {
    hide Rows, Accepted, FileSizes, RollupCategory, InFlashOf, InRamOf, InSection;
    RowsAreExact(ls, r.file);
    FileSizesAre(ls, r.file);
  }

  /** The files with contributions that count, in the order of their first ones. */
  function FilesSeen(ls: seq<Line>): seq<string> {
    FirstKeys(Items(Accepted(ls)))
  }

  /** Rows descend by flash and RAM together; of two alike, the one whose file was seen first comes first. */
  lemma RowsAreOrdered(ls: seq<Line>, i: nat, j: nat)
    requires i < j < |Rows(ls)|
    ensures var r, q := Rows(ls)[i], Rows(ls)[j];
      && r.flash + r.ram >= q.flash + q.ram
      && (r.flash + r.ram == q.flash + q.ram ==>
            exists m, n :: 0 <= m < n < |FilesSeen(ls)| && FilesSeen(ls)[m] == r.file && FilesSeen(ls)[n] == q.file)
  {
    hide Accepted, Group, SortDown, Items, FirstKeys, TableRows;
    var t := Group(Items(Accepted(ls)), SIZES);
    var rows := TableRows(t);
    SortDescends(rows, RowSize);
    var r, q := Rows(ls)[i], Rows(ls)[j];
    if RowSize(r) == RowSize(q) {
      var m, n := SortKeepsOrder(rows, RowSize, i, j);
      TableOf(ls);
      GroupOrder(Items(Accepted(ls)), SIZES);
      assert FilesSeen(ls)[m] == t[m].key == r.file && FilesSeen(ls)[n] == t[n].key == q.file;
    }
  }

  /** In every row RAM is data plus bss, and text, constants and data are part of flash. */
  lemma RowsAreBalanced(ls: seq<Line>, r: Row)
    requires r in Rows(ls)
    ensures r.ram == r.dataFlash + r.bss && r.text + r.rodata + r.dataFlash <= r.flash && r.flash + r.ram > 0
  {
    hide Accepted, RowSize;
    TableOf(ls);
    var t := Group(Items(Accepted(ls)), SIZES);
    SortMembers(TableRows(t), RowSize, r);
    var i :| 0 <= i < |TableRows(t)| && TableRows(t)[i] == r;
    RowPositive(ls, i);
  }

  lemma RowPositive(ls: seq<Line>, i: nat)
    requires i < |Group(Items(Accepted(ls)), SIZES)|
    ensures var z := Group(Items(Accepted(ls)), SIZES)[i].value; z.flash + z.ram > 0
  {
    hide *;
    var fs := Accepted(ls);
    var t := Group(Items(fs), SIZES);
    AcceptedCounted(ls);
    GroupIsExact(Items(fs), SIZES, t[i].key);
    LookupAt(t, SIZES, i);
    KeyAt(t, i);
    AddUpPositive(fs, t[i].key);
  }

  function FlashOf(z: Sizes): int { z.flash }
  function RamOf(z: Sizes): int { z.ram }
  function RowFlash(r: Row): int { r.flash }
  function RowRam(r: Row): int { r.ram }

  /** What a contribution that counts adds to flash, and to RAM. */
  function FlashSize(f: Found): int {
    if InFlash(BaseSection(f.section)) then f.size else 0
  }

  function RamSize(f: Found): int {
    if InRam(BaseSection(f.section)) then f.size else 0
  }

  lemma MeasureConserved(ls: seq<Line>, ofRow: Row -> int, ofSizes: Sizes -> int, ofFound: Found -> int)
    requires Additive(SIZES, ofSizes)
    requires forall e: Entry<string, Sizes> :: ofRow(RowOf(e)) == ofSizes(e.value)
    requires forall f: Found :: ofFound(f) == ofSizes(ItemOf(f).value)
    ensures Sum(Rows(ls), ofRow) == Sum(Accepted(ls), ofFound)
  {
    hide Accepted, RowOf, ItemOf, RowSize, FileSizes, Balanced, Distinct, Group, TableRows, Additive, SortDown;
    var fs := Accepted(ls);
    var t := Group(Items(fs), SIZES);
    TableOf(ls);
    SortConserves(TableRows(t), RowSize, ofRow);
    SumPointwise(TableRows(t), t, ofRow, OfValue(ofSizes));
    GroupConserves(Items(fs), SIZES, ofSizes);
    SumPointwise(Items(fs), fs, OfValue(ofSizes), ofFound);
  }

  /** The rows together hold exactly the contributions that count. */
  lemma RowsConserve(ls: seq<Line>)
    ensures Sum(Rows(ls), RowFlash) == Sum(Accepted(ls), FlashSize)
    ensures Sum(Rows(ls), RowRam) == Sum(Accepted(ls), RamSize)
  {
    hide InFlash, InRam, BaseSection, Rows, Accepted;
    MeasureConserved(ls, RowFlash, FlashOf, FlashSize);
    MeasureConserved(ls, RowRam, RamOf, RamSize);
  }

  // ----- parse_map_file -----

  /** The marker line's index. */
  function Start(lines: seq<Line>): (r: Option<nat>)
    ensures r.Some? ==> r.value < |lines| && lines[r.value].Marker?
    ensures r.Some? ==> forall k :: 0 <= k < r.value ==> !lines[k].Marker?
    ensures r.None? ==> forall k :: 0 <= k < |lines| ==> !lines[k].Marker?
  {
    if lines == [] then None
    else if lines[0].Marker? then Some(0)
    else
      var r := Start(lines[1..]);
      if r.None? then None else Some(r.value + 1)
  }

  /** The increments that one contribution makes to its file's entry. */
  method Credit(entry: Sizes, base: string, n: nat) returns (e: Sizes)
    ensures e == Plus(entry, Amount(base, n))
  {
    NoFlashBss(base);
    e := entry;
    if InFlash(base) {
      e := e.(flash := e.flash + n);
      if base == ".text" {
        e := e.(text := e.text + n);
      } else if base == ".rodata" {
        e := e.(rodata := e.rodata + n);
      } else if base == ".data" {
        e := e.(dataFlash := e.dataFlash + n);
      } else {
        e := e.(otherFlash := e.otherFlash + n);
      }
    }
    if InRam(base) {
      e := e.(ram := e.ram + n);
      if base == ".data" {
        e := e.(dataRam := e.dataRam + n);
      } else if base == ".bss" {
        e := e.(bss := e.bss + n);
      }
    }
  }

  lemma NoFlashBss(base: string)
    ensures base == ".data" || base == ".text" || base == ".rodata" ==> InFlash(base) && base != ".bss"
    ensures base == ".bss" ==> !InFlash(base)
    ensures !(base == ".data" && base == ".text") && !(base == ".data" && base == ".rodata")
    ensures !(base == ".text" && base == ".rodata")
  {
    assert ".bss"[1] == 'b' && ".data"[1] == 'd' && ".text"[1] == 't' && ".rodata"[1] == 'r';
    assert |".bss"| == 4 && |".init"| == 5 && |".fini"| == 5;
  }

  /** One turn of the line loop. */
  method ReadLine(line: Line, pending: string, perFile: seq<Entry<string, Sizes>>, ghost before: seq<Line>)
    returns (pending': string, perFile': seq<Entry<string, Sizes>>)
    requires pending == Pending(before) && perFile == Group(Items(Accepted(before)), SIZES)
    ensures pending' == Pending(before + [line])
    ensures perFile' == Group(Items(Accepted(before + [line])), SIZES)
  {
    AcceptedStep(before, line);
    PendingStep(before, line);
    hide Pending, Accepted, Group, Items, BaseSection, InFlash, InRam, Amount;
    pending', perFile' := pending, perFile;
    var section, size, path := "", 0, "";
    match line {
      case Load => return;
      case Header => return "", perFile;
      case Star => return;
      case NameOnly(s) => return s, perFile;
      case Contribution(s, n, p) =>
        section, size, path := s, n, p;
        pending' := "";
      case SizePath(n, p) =>
        if pending == "" { return; }
        section, size, path := pending, n, p;
        pending' := "";
      case _ => return;
    }
    if size <= 0 { return; }
    if path == "" { return; }
    var base := BaseSection(section);
    if !InFlash(base) && !InRam(base) { return; }
    var entry := Lookup(perFile, SIZES, path);
    entry := Credit(entry, base, size);
    perFile' := Put(perFile, path, entry);
    BumpIsPut(perFile, SIZES, path, Amount(base, size));
    GroupStep(Accepted(before), Found(section, size, path));
  }

  lemma GroupStep(fs: seq<Found>, f: Found)
    ensures Group(Items(fs + [f]), SIZES) == Bump(Group(Items(fs), SIZES), SIZES, ItemOf(f).key, ItemOf(f).value)
  {
    hide ItemOf, Bump;
    assert (fs + [f])[..|fs|] == fs;
    assert Items(fs + [f]) == Items(fs) + [ItemOf(f)];
    assert Items(fs + [f])[..|fs|] == Items(fs);
  }

  /** The line loop. */
  method AggregateLines(body: seq<Line>) returns (perFile: seq<Entry<string, Sizes>>)
    ensures perFile == Group(Items(Accepted(body)), SIZES)
  {
    hide *;
    var pending := "";
    perFile := [];
    var i := 0;
    NoLines(body[..0]);
    while i < |body|
      invariant i <= |body|
      invariant pending == Pending(body[..i]) && perFile == Group(Items(Accepted(body[..i])), SIZES)
    {
      pending, perFile := ReadLine(body[i], pending, perFile, body[..i]);
      assert body[..i] + [body[i]] == body[..i + 1];
      i := i + 1;
    }
    assert body[..i] == body;
  }

  /** parse_map_file on the file's lines; without a marker line it raises an error. */
  method ParseMapFile(lines: seq<Line>) returns (r: Option<seq<Row>>)
    ensures r == if Start(lines).None? then None else Some(Rows(lines[Start(lines).value + 1..]))
  {
    hide Accepted, Items, Group, TableRows, SortDown, Start;
    var start := Start(lines);
    if start.None? { return None; }
    var perFile := AggregateLines(lines[start.value + 1..]);
    var rows := CollectRows(perFile);
    return Some(SortDown(rows, RowSize));
  }

  lemma NoLines(ls: seq<Line>)
    requires ls == []
    ensures Pending(ls) == "" && Group(Items(Accepted(ls)), SIZES) == []
  {
  }

  /** The loop that turns the table into rows. */
  method CollectRows(perFile: seq<Entry<string, Sizes>>) returns (rows: seq<Row>)
    ensures rows == TableRows(perFile)
  {
    rows := [];
    var i := 0;
    while i < |perFile|
      invariant i <= |perFile| && rows == TableRows(perFile[..i])
    {
      var e := perFile[i];
      assert perFile[..i + 1][..i] == perFile[..i];
      i := i + 1;
      if e.value.flash == 0 && e.value.ram == 0 { continue; }
      rows := rows + [RowOf(e)];
    }
    assert perFile[..i] == perFile;
  }
}
