/** Interchange level 1 identifiers: construction, sibling disambiguation, and the reader's inverse. */
module Identifiers {
  import opened Bytes

  const DOT: byte := 0x2E
  const SLASH: byte := 0x2F
  const SEMICOLON: byte := 0x3B
  const TILDE: byte := 0x7E
  const UNDERSCORE: byte := 0x5F
  const VERSION: Str := [SEMICOLON, 0x31]

  // ----- Characters -----

  predicate DChar(c: int) {
    0x41 <= c <= 0x5A || 0x30 <= c <= 0x39 || c == 0x5F
  }

  /** Upper-casing of one code point. Besides a-z, exactly the dotless i and the long s map into ASCII;
      every other code point stays outside ASCII, or stays itself. */
  function Upper(c: int): int {
    if 0x61 <= c <= 0x7A then c - 0x20
    else if c == 0x131 then 0x49
    else if c == 0x17F then 0x53
    else c
  }

  function SanitizeChar(c: int): (b: byte)
    ensures DChar(b)
  {
    if DChar(Upper(c)) then Upper(c) else UNDERSCORE
  }

  function Sanitize(name: Text): (s: Str)
    ensures |s| == |name| && forall i | 0 <= i < |s| :: DChar(s[i])
  {
    seq(|name|, i requires 0 <= i < |name| => SanitizeChar(name[i]))
  }

  function Clamp(s: Str, n: int): (r: Str)
    ensures r <= s && |r| == Min(|s|, Max(n, 0))
  {
    if |s| > Max(n, 0) then s[..Max(n, 0)] else s
  }

  /** `strings.IndexByte`: the first position of `c`, or -1. */
  function IndexOf(s: Text, c: int): (i: int)
    ensures -1 <= i < |s|
    ensures i >= 0 ==> s[i] == c && c !in s[..i]
    ensures i < 0 ==> c !in s
  {
    IndexFrom(s, c, 0)
  }

  function IndexFrom(s: Text, c: int, from: nat): (i: int)
    requires from <= |s| && forall j | 0 <= j < from :: s[j] != c
    ensures -1 <= i < |s|
    ensures i >= 0 ==> s[i] == c && forall j | 0 <= j < i :: s[j] != c
    ensures i < 0 ==> c !in s
    decreases |s| - from
  {
    if from == |s| then -1 else if s[from] == c then from else IndexFrom(s, c, from + 1)
  }

  lemma IndexOfIs(s: Text, c: int, i: nat)
    requires i < |s| && s[i] == c && forall j | 0 <= j < i :: s[j] != c
    ensures IndexOf(s, c) == i
  {
    assert c in s;
    assert IndexFrom(s, c, 0) >= 0;
  }

  /** `strings.LastIndexByte`: the last position of `c`, or -1. */
  function LastIndexOf(s: Text, c: int): (i: int)
    ensures -1 <= i < |s|
    ensures i >= 0 ==> s[i] == c && forall j | i < j < |s| :: s[j] != c
    ensures i < 0 ==> c !in s
  {
    LastIndexBefore(s, c, |s|)
  }

  function LastIndexBefore(s: Text, c: int, end: nat): (i: int)
    requires end <= |s| && forall j | end <= j < |s| :: s[j] != c
    ensures -1 <= i < |s|
    ensures i >= 0 ==> s[i] == c && forall j | i < j < |s| :: s[j] != c
    ensures i < 0 ==> c !in s
  {
    if end == 0 then -1 else if s[end - 1] == c then end - 1 else LastIndexBefore(s, c, end - 1)
  }

  // ----- Base identifiers and their variants -----

  /** The bytes of `s` from `i` on. */
  function From(s: Str, i: nat): (r: Str)
    requires i <= |s|
    ensures |r| == |s| - i && forall j | 0 <= j < |r| :: r[j] == s[i + j]
  {
    seq(|s| - i, j requires 0 <= j < |s| - i => s[i + j])
  }

  /** The extension of a sanitized name: what follows position `i`, or nothing when there is no dot to cut at. */
  function ExtensionOf(s: Str, i: int): (r: Str)
    requires i < |s|
    ensures forall j | 0 <= j < |r| :: r[j] in s
  {
    if i > 0 then From(s, i + 1) else []
  }

  function IsoIdentifier(name: Text, isDir: bool): Str {
    if isDir then Clamp(Sanitize(name), 8)
    else
      var i := LastIndexOf(name, DOT);
      var all := Sanitize(name);
      var stem := Clamp(if i > 0 then all[..i] else all, 8);
      var ext := Clamp(ExtensionOf(all, i), 3);
      (if stem == [] then [UNDERSCORE] else stem) + (if ext == [] then [] else [DOT] + ext) + VERSION
  }

  function Digits(k: nat): (d: Str)
    ensures |d| > 0 && forall i | 0 <= i < |d| :: 0x30 <= d[i] <= 0x39
  {
    if k < 10 then [0x30 + k] else Digits(k / 10) + [0x30 + k % 10]
  }

  /** Where `disambiguate` cuts a base: before the extension, else before the version. */
  function CutAt(base: Str, isDir: bool): (i: nat)
    ensures i <= |base|
  {
    if isDir then |base|
    else if IndexOf(base, DOT) >= 0 then IndexOf(base, DOT)
    else if IndexOf(base, SEMICOLON) >= 0 then IndexOf(base, SEMICOLON)
    else |base|
  }

  function Disambiguate(base: Str, isDir: bool, k: nat): Str {
    var suffix := [TILDE] + Digits(k);
    var cut := CutAt(base, isDir);
    Clamp(base[..cut], 8 - |suffix|) + suffix + From(base, cut)
  }

  lemma {:induction false} DigitsInjective(j: nat, k: nat)
    requires Digits(j) == Digits(k)
    ensures j == k
  {
    if j >= 10 && k >= 10 {
      var a, b := Digits(j / 10), Digits(k / 10);
      assert a == Digits(j)[..|Digits(j)| - 1] && b == Digits(k)[..|Digits(k)| - 1];
      DigitsInjective(j / 10, k / 10);
      assert Digits(j)[|Digits(j)| - 1] == 0x30 + j % 10;
    }
  }

  /** What stands between the first tilde and a common tail is determined by the whole. */
  lemma TildeSplits(a: Str, b: Str, x: Str, y: Str, tail: Str)
    requires TILDE !in a && TILDE !in b
    requires a + ([TILDE] + x) + tail == b + ([TILDE] + y) + tail
    ensures x == y
  {
    var s, t := a + ([TILDE] + x) + tail, b + ([TILDE] + y) + tail;
    assert forall i | 0 <= i < |a| :: s[i] == a[i];
    assert forall i | 0 <= i < |b| :: t[i] == b[i];
    assert s[|a|] == TILDE && t[|b|] == TILDE;
    assert |a| == |b|;
    assert x == s[|a| + 1..|s| - |tail|] && y == t[|b| + 1..|t| - |tail|];
  }

  lemma ClampKeepsOut(base: Str, i: nat, n: int)
    requires i <= |base| && TILDE !in base
    ensures TILDE !in Clamp(base[..i], n)
  {
    assert forall j | 0 <= j < |Clamp(base[..i], n)| :: Clamp(base[..i], n)[j] == base[j];
  }

  lemma VariantsInjective(base: Str, isDir: bool, j: nat, k: nat)
    requires TILDE !in base
    requires Disambiguate(base, isDir, j) == Disambiguate(base, isDir, k)
    ensures j == k
  {
    var tail := From(base, CutAt(base, isDir));
    var a, x := VariantForm(base, isDir, j);
    var b, y := VariantForm(base, isDir, k);
    TildeSplits(a, b, x, y, tail);
    DigitsInjective(j, k);
  }

  lemma VariantForm(base: Str, isDir: bool, k: nat) returns (head: Str, digits: Str)
    requires TILDE !in base
    ensures TILDE !in head && digits == Digits(k)
    ensures Disambiguate(base, isDir, k) == head + ([TILDE] + digits) + From(base, CutAt(base, isDir))
  {
    digits := Digits(k);
    head := Clamp(base[..CutAt(base, isDir)], 8 - |[TILDE] + digits|);
    ClampKeepsOut(base, CutAt(base, isDir), 8 - |[TILDE] + digits|);
  }

  /** Variants 2..k-1 are all in use. */
  predicate Taken(base: Str, isDir: bool, used: set<Str>, k: nat) {
    forall j | 2 <= j < k :: Disambiguate(base, isDir, j) in used
  }

  /** Pigeonhole: the variants are distinct, so all of 2..k-1 being taken bounds k. */
  lemma {:induction false} TakenVariants(base: Str, isDir: bool, used: set<Str>, k: nat)
    requires TILDE !in base && k >= 2 && Taken(base, isDir, used, k)
    ensures k - 2 <= |used|
  {
    if k > 2 {
      var v := Disambiguate(base, isDir, k - 1);
      forall j | 2 <= j < k - 1
        ensures Disambiguate(base, isDir, j) in used - {v}
      {
        if Disambiguate(base, isDir, j) == v { VariantsInjective(base, isDir, j, k - 1); }
      }
      TakenVariants(base, isDir, used - {v}, k - 1);
    }
  }

  /** The index of the first free variant from `k` on, all smaller ones being taken. */
  function FirstFree(base: Str, isDir: bool, used: set<Str>, k: nat): (r: nat)
    requires TILDE !in base && k >= 2 && Taken(base, isDir, used, k)
    ensures k <= r <= |used| + 2
    ensures Disambiguate(base, isDir, r) !in used && Taken(base, isDir, used, r)
    decreases |used| + 2 - k
  {
    TakenVariants(base, isDir, used, k);
    if Disambiguate(base, isDir, k) !in used then k
    else
      TakenVariants(base, isDir, used, k + 1);
      FirstFree(base, isDir, used, k + 1)
  }

  lemma BaseHasNoTilde(name: Text, isDir: bool)
    ensures TILDE !in IsoIdentifier(name, isDir)
  {
    BaseShape(name, isDir);
  }

  /** The identifier one child gets when its earlier siblings have taken `used`. */
  function Pick(name: Text, isDir: bool, used: set<Str>): Str {
    var base := IsoIdentifier(name, isDir);
    BaseHasNoTilde(name, isDir);
    if base !in used then base
    else Disambiguate(base, isDir, FirstFree(base, isDir, used, 2))
  }

  lemma FirstFreeIs(base: Str, isDir: bool, used: set<Str>, k: nat)
    requires TILDE !in base && k >= 2
    requires Taken(base, isDir, used, k) && Disambiguate(base, isDir, k) !in used
    ensures Taken(base, isDir, used, 2) && FirstFree(base, isDir, used, 2) == k
  {
    var r := FirstFree(base, isDir, used, 2);
  }

  /** The counting loop of `assignIdentifiers`, once the base itself is taken. */
  method CountUp(base: Str, isDir: bool, used: set<Str>) returns (id: Str)
    requires TILDE !in base
    ensures id == Disambiguate(base, isDir, FirstFree(base, isDir, used, 2))
  {
    var k := 2;
    id := Disambiguate(base, isDir, k);
    while id in used
      invariant k >= 2 && id == Disambiguate(base, isDir, k) && Taken(base, isDir, used, k)
      decreases |used| + 3 - k
    {
      assert Taken(base, isDir, used, k + 1);
      TakenVariants(base, isDir, used, k + 1);
      k := k + 1;
      id := Disambiguate(base, isDir, k);
    }
    FirstFreeIs(base, isDir, used, k);
  }

  method PickId(name: Text, isDir: bool, used: set<Str>) returns (id: Str)
    ensures id == Pick(name, isDir, used)
  {
    var base := IsoIdentifier(name, isDir);
    BaseHasNoTilde(name, isDir);
    id := base;
    if base in used {
      id := CountUp(base, isDir, used);
    }
  }

  // ----- Shapes -----

  predicate NameChar(c: int) { DChar(c) || c == TILDE }

  predicate DirId(id: Str) {
    id != [] && forall i | 0 <= i < |id| :: NameChar(id[i])
  }

  /** A stem of name characters and dots that does not end in a dot, then ";1". */
  predicate FileId(id: Str) {
    && |id| >= 3 && id[|id| - 2..] == VERSION
    && (forall i | 0 <= i < |id| - 2 :: NameChar(id[i]) || id[i] == DOT)
    && id[|id| - 3] != DOT
  }

  predicate GoodId(id: Str, isDir: bool) {
    if isDir then DirId(id) else FileId(id)
  }

  predicate StemChars(s: Str) {
    forall i | 0 <= i < |s| :: NameChar(s[i]) || s[i] == DOT
  }

  lemma FileIdFromStem(stem: Str)
    requires stem != [] && StemChars(stem) && stem[|stem| - 1] != DOT
    ensures FileId(stem + VERSION)
  {
    var id := stem + VERSION;
    assert id[|id| - 2..] == VERSION;
    assert forall i | 0 <= i < |stem| :: id[i] == stem[i];
  }

  predicate DChars(s: Str) {
    forall i | 0 <= i < |s| :: DChar(s[i])
  }

  lemma ClampSanitized(name: Text, n: nat)
    ensures DChars(Clamp(Sanitize(name), n)) && |Clamp(Sanitize(name), n)| <= n
  {
    ClampDChars(Sanitize(name), n);
  }

  /** A file base is a stem of d-characters, an optional dot and extension, and the version. */
  lemma FileBase(name: Text) returns (stem: Str, ext: Str)
    ensures IsoIdentifier(name, false) == stem + ext + VERSION
    ensures stem != [] && DChars(stem) && |stem| <= 8
    ensures ext != [] ==> |ext| >= 2 && ext[0] == DOT && DChars(ext[1..])
    ensures |ext| <= 4
  {
    var i, all := LastIndexOf(name, DOT), Sanitize(name);
    ClampDChars(if i > 0 then all[..i] else all, 8);
    ClampDChars(ExtensionOf(all, i), 3);
    stem := Clamp(if i > 0 then all[..i] else all, 8);
    stem := if stem == [] then [UNDERSCORE] else stem;
    ext := Clamp(ExtensionOf(all, i), 3);
    assert ext != [] ==> ([DOT] + ext)[1..] == ext;
    ext := if ext == [] then [] else [DOT] + ext;
  }

  lemma ClampDChars(s: Str, n: nat)
    requires DChars(s)
    ensures DChars(Clamp(s, n)) && |Clamp(s, n)| <= n
  {
    assert forall i | 0 <= i < |Clamp(s, n)| :: Clamp(s, n)[i] == s[i];
  }

  /** The cut falls exactly between the stem and the rest. */
  lemma FileCut(stem: Str, ext: Str)
    requires DChars(stem) && (ext != [] ==> ext[0] == DOT && DChars(ext[1..]))
    ensures CutAt(stem + ext + VERSION, false) == |stem|
  {
    var base := stem + ext + VERSION;
    assert forall i | 0 <= i < |stem| :: base[i] == stem[i];
    if ext != [] {
      assert base[|stem|] == DOT;
      IndexOfIs(base, DOT, |stem|);
    } else {
      assert base[|stem|] == SEMICOLON && base[|stem| + 1] == 0x31;
      IndexOfIs(base, SEMICOLON, |stem|);
    }
  }

  lemma BaseShape(name: Text, isDir: bool)
    ensures TILDE !in IsoIdentifier(name, isDir)
    ensures name != [] ==> GoodId(IsoIdentifier(name, isDir), isDir)
    ensures |IsoIdentifier(name, isDir)| <= 14
  {
    if isDir {
      ClampSanitized(name, 8);
    } else {
      FileBaseShape(name);
    }
  }

  lemma FileBaseShape(name: Text)
    ensures TILDE !in IsoIdentifier(name, false) && FileId(IsoIdentifier(name, false))
            && |IsoIdentifier(name, false)| <= 14
  {
    var stem, ext := FileBase(name);
    PlainStem(stem, ext);
  }

  lemma PlainStem(stem: Str, ext: Str)
    requires stem != [] && DChars(stem) && |stem| <= 8 && |ext| <= 4
    requires ext != [] ==> |ext| >= 2 && ext[0] == DOT && DChars(ext[1..])
    ensures TILDE !in stem + ext + VERSION && FileId(stem + ext + VERSION) && |stem + ext + VERSION| <= 14
  {
    FileStem(stem, ext);
    FileIdFromStem(stem + ext);
    NoTilde(stem, ext);
  }

  lemma NoTilde(stem: Str, ext: Str)
    requires DChars(stem) && (ext != [] ==> ext[0] == DOT && DChars(ext[1..]))
    ensures TILDE !in stem + ext + VERSION
  {
    assert forall i | 1 <= i < |ext| :: ext[i] == ext[1..][i - 1];
  }

  lemma FileStem(stem: Str, ext: Str)
    requires stem != [] && StemChars(stem) && stem[|stem| - 1] != DOT
    requires ext != [] ==> |ext| >= 2 && ext[0] == DOT && DChars(ext[1..])
    ensures StemChars(stem + ext) && (stem + ext)[|stem + ext| - 1] != DOT
  {
    if ext != [] {
      assert forall i | 1 <= i < |ext| :: ext[i] == ext[1..][i - 1];
    }
  }

  lemma VariantShape(name: Text, isDir: bool, k: nat)
    requires name != []
    ensures GoodId(Disambiguate(IsoIdentifier(name, isDir), isDir, k), isDir)
    ensures |Disambiguate(IsoIdentifier(name, isDir), isDir, k)| <= 15 + |Digits(k)|
  {
    if isDir {
      ClampSanitized(name, 8);
      DirVariant(IsoIdentifier(name, true), k);
    } else {
      var stem, ext := FileBase(name);
      FileVariant(stem, ext, k);
    }
  }

  lemma DirVariant(base: Str, k: nat)
    requires DChars(base) && |base| <= 8
    ensures DirId(Disambiguate(base, true, k)) && |Disambiguate(base, true, k)| <= 15 + |Digits(k)|
  {
    var suffix := [TILDE] + Digits(k);
    var head := Clamp(base, 8 - |suffix|);
    assert base[..|base|] == base;
    assert Disambiguate(base, true, k) == head + suffix;
  }

  lemma Counted(stem: Str, k: nat) returns (s: Str)
    requires DChars(stem)
    ensures s == Clamp(stem, 8 - |[TILDE] + Digits(k)|) + ([TILDE] + Digits(k))
    ensures s != [] && StemChars(s) && s[|s| - 1] != DOT && |s| <= |stem| + 1 + |Digits(k)|
  {
    s := Clamp(stem, 8 - |[TILDE] + Digits(k)|) + ([TILDE] + Digits(k));
    assert s[|s| - 1] == Digits(k)[|Digits(k)| - 1];
  }

  lemma FileVariant(stem: Str, ext: Str, k: nat)
    requires DChars(stem) && |stem| <= 8 && |ext| <= 4
    requires ext != [] ==> |ext| >= 2 && ext[0] == DOT && DChars(ext[1..])
    ensures FileId(Disambiguate(stem + ext + VERSION, false, k))
    ensures |Disambiguate(stem + ext + VERSION, false, k)| <= 15 + |Digits(k)|
  {
    var s := Counted(stem, k);
    FileStem(s, ext);
    FileIdFromStem(s + ext);
    FileVariantIs(stem, ext, k, s);
    Assoc(s, ext, VERSION);
  }

  lemma FileVariantIs(stem: Str, ext: Str, k: nat, s: Str)
    requires DChars(stem) && (ext != [] ==> ext[0] == DOT && DChars(ext[1..]))
    requires s == Clamp(stem, 8 - |[TILDE] + Digits(k)|) + ([TILDE] + Digits(k))
    ensures Disambiguate(stem + ext + VERSION, false, k) == s + (ext + VERSION)
  {
    FileCut(stem, ext);
    var base := stem + ext + VERSION;
    assert base[..|stem|] == stem && From(base, |stem|) == ext + VERSION;
  }

  function Pow10(n: nat): nat { if n == 0 then 1 else 10 * Pow10(n - 1) }

  lemma {:induction false} DigitsLength(k: nat, n: nat)
    requires n > 0 && k < Pow10(n)
    ensures |Digits(k)| <= n
  {
    if k >= 10 {
      assert Pow10(1) == 10;
      DigitsLength(k / 10, n - 1);
    }
  }

  /** What every picked identifier satisfies: right shape, not taken, short enough for one record. */
  lemma PickShape(name: Text, isDir: bool, used: set<Str>)
    requires name != []
    ensures GoodId(Pick(name, isDir, used), isDir)
    ensures Pick(name, isDir, used) !in used
    ensures |used| < 0x1_0000_0000 ==> |Pick(name, isDir, used)| <= 25
  {
    var base := IsoIdentifier(name, isDir);
    BaseShape(name, isDir);
    if base in used {
      var k := FirstFree(base, isDir, used, 2);
      VariantShape(name, isDir, k);
      if |used| < 0x1_0000_0000 {
        assert Pow10(10) == 10_000_000_000 by { assert Pow10(5) == 100000; }
        DigitsLength(k, 10);
      }
    }
  }

  // ----- What an identifier says of the name -----

  /** Letters and digits and "_" stay, small letters become capital, dotless i and long s become I and S, and any other
      character becomes "_". */
  lemma SanitizeMeans(name: Text, i: nat)
    requires i < |name|
    ensures |Sanitize(name)| == |name|
    ensures var c, b := name[i], Sanitize(name)[i];
            if 0x41 <= c <= 0x5A || 0x30 <= c <= 0x39 then b == c
            else if 0x61 <= c <= 0x7A then b == c - 0x20
            else if c == 0x131 then b == 0x49
            else if c == 0x17F then b == 0x53
            else b == 0x5F
  {
  }

  /** A directory keeps the first eight characters of its name. */
  lemma DirIdentifierMeans(name: Text)
    ensures IsoIdentifier(name, true) == Sanitize(name)[..Min(8, |name|)]
  {
  }

  lemma LastDot(s: Text, e: Text)
    requires 0x2E !in e
    ensures LastIndexOf(s + [0x2E] + e, DOT) == |s|
  {
    var name := s + [0x2E] + e;
    assert name[|s|] == DOT && forall j | |s| < j < |name| :: name[j] == e[j - |s| - 1];
    assert DOT in name;
  }

  lemma SanitizeParts(s: Text, e: Text)
    ensures Sanitize(s + [0x2E] + e)[..|s|] == Sanitize(s)
    ensures From(Sanitize(s + [0x2E] + e), |s| + 1) == Sanitize(e)
  {
  }

  /** A file keeps the first eight characters before the last dot, then the first three after it; a dot in front and a
      dot at the end make no extension. */
  lemma FileIdentifierMeans(s: Text, e: Text)
    requires 0x2E !in e
    ensures var name := s + [0x2E] + e;
            IsoIdentifier(name, false) ==
            (if s == [] then Sanitize(name)[..Min(8, |name|)]
             else Sanitize(s)[..Min(8, |s|)] + if e == [] then [] else [0x2E] + Sanitize(e)[..Min(3, |e|)])
            + [0x3B, 0x31]
  {
    LastDot(s, e);
    SanitizeParts(s, e);
    if s != [] { FileWithStem(s + [0x2E] + e, |s|); }
  }

  /** A name without dot is all stem. */
  lemma DotlessIdentifierMeans(name: Text)
    requires name != [] && 0x2E !in name
    ensures IsoIdentifier(name, false) == Sanitize(name)[..Min(8, |name|)] + [0x3B, 0x31]
  {
  }

  lemma ClampIs(s: Str, n: nat)
    ensures Clamp(s, n) == s[..Min(n, |s|)]
  {
  }

  lemma FileWithStem(name: Text, i: nat)
    requires LastIndexOf(name, DOT) == i > 0
    ensures i < |name| && IsoIdentifier(name, false) ==
            (Sanitize(name)[..i][..Min(8, i)]
             + if i + 1 == |name| then [] else [0x2E] + From(Sanitize(name), i + 1)[..Min(3, |name| - i - 1)])
            + [0x3B, 0x31]
  {
    var all := Sanitize(name);
    ClampIs(all[..i], 8);
    ClampIs(From(all, i + 1), 3);
    Recorded(Clamp(all[..i], 8), Clamp(From(all, i + 1), 3), name, i);
  }

  lemma Recorded(stem: Str, ext: Str, name: Text, i: nat)
    requires LastIndexOf(name, DOT) == i > 0
    requires stem == Clamp(Sanitize(name)[..i], 8) && ext == Clamp(From(Sanitize(name), i + 1), 3)
    ensures stem != [] && IsoIdentifier(name, false) == stem + (if ext == [] then [] else [DOT] + ext) + VERSION
  {
  }

  /** The decimal digits of k, and no leading zero. */
  function DecimalValue(d: Str): int {
    if d == [] then 0 else 10 * DecimalValue(d[..|d| - 1]) + (d[|d| - 1] as int) - 0x30
  }

  lemma {:induction false} DigitsMean(k: nat)
    ensures var d := Digits(k);
            && DecimalValue(d) == k && (forall i | 0 <= i < |d| :: 0x30 <= d[i] <= 0x39)
            && (k > 0 ==> d[0] != 0x30) && (k == 0 ==> |d| == 1)
  {
    if k >= 10 {
      DigitsMean(k / 10);
      assert Digits(k)[..|Digits(k)| - 1] == Digits(k / 10);
    } else {
      assert DecimalValue([]) == 0 && Digits(k)[..0] == [];
    }
  }

  /** The k-th variant: "~k" after as much of the stem as leaves eight characters, then extension and version as they
      were. */
  lemma VariantMeans(stem: Str, ext: Str, k: nat)
    requires (forall c <- stem :: DChar(c)) && (ext != [] ==> ext[0] == 0x2E && forall c <- ext[1..] :: DChar(c))
    ensures Disambiguate(stem + ext + [0x3B, 0x31], false, k)
         == stem[..Min(|stem|, Max(0, 7 - |Digits(k)|))] + ([0x7E] + Digits(k)) + (ext + [0x3B, 0x31])
    ensures Disambiguate(stem, true, k) == stem[..Min(|stem|, Max(0, 7 - |Digits(k)|))] + ([0x7E] + Digits(k))
  {
    var s := Clamp(stem, 8 - |[TILDE] + Digits(k)|) + ([TILDE] + Digits(k));
    FileVariantIs(stem, ext, k, s);
    assert stem[..|stem|] == stem && From(stem, |stem|) == [];
  }

  /** The base if it is free, else the first free variant, counting from 2. */
  lemma PickMeans(name: Text, isDir: bool, used: set<Str>)
    ensures var base, id := IsoIdentifier(name, isDir), Pick(name, isDir, used);
            if base !in used then id == base
            else exists k: nat :: k >= 2 && id == Disambiguate(base, isDir, k) && id !in used
                               && forall j | 2 <= j < k :: Disambiguate(base, isDir, j) in used
  {
    var base := IsoIdentifier(name, isDir);
    BaseHasNoTilde(name, isDir);
    if base in used {
      var k := FirstFree(base, isDir, used, 2);
      assert k >= 2 && Taken(base, isDir, used, k);
    }
  }

  // ----- Names that are level 1 identifiers already -----

  predicate DName(s: Text, n: nat) {
    1 <= |s| <= n && forall c <- s :: 0x41 <= c <= 0x5A || 0x30 <= c <= 0x39 || c == 0x5F
  }

  /** Up to eight capital letters, digits and "_"; for a file, then perhaps a dot and up to three more. */
  predicate LevelOne(name: Text, isDir: bool) {
    DName(name, 8) || (!isDir && exists i | 0 < i < |name| :: DottedAt(name, i))
  }

  predicate DottedAt(name: Text, i: nat)
    requires i < |name|
  {
    name[i] == 0x2E && DName(name[..i], 8) && DName(name[i + 1..], 3)
  }

  lemma SanitizeIdle(s: Text, n: nat)
    requires DName(s, n)
    ensures Sanitize(s) == s && 0x2E !in s
  {
    forall i | 0 <= i < |s| ensures Sanitize(s)[i] == s[i] && s[i] != 0x2E { assert s[i] in s; }
  }

  /** Such a name is kept, with the version added for a file. */
  lemma LevelOneKept(name: Text, isDir: bool)
    requires LevelOne(name, isDir)
    ensures IsoIdentifier(name, isDir) == if isDir then name else name + [0x3B, 0x31]
  {
    if DName(name, 8) {
      SanitizeIdle(name, 8);
      DirIdentifierMeans(name);
      DotlessIdentifierMeans(name);
      assert Sanitize(name)[..Min(8, |name|)] == name;
    } else {
      var i :| 0 < i < |name| && DottedAt(name, i);
      assert name == name[..i] + [0x2E] + name[i + 1..];
      DottedKept(name[..i], name[i + 1..]);
    }
  }

  lemma DottedKept(s: Text, e: Text)
    requires DName(s, 8) && DName(e, 3)
    ensures IsoIdentifier(s + [0x2E] + e, false) == s + [0x2E] + e + [0x3B, 0x31]
  {
    SanitizeIdle(s, 8);
    SanitizeIdle(e, 3);
    FileIdentifierMeans(s, e);
    assert Sanitize(s)[..Min(8, |s|)] == s && Sanitize(e)[..Min(3, |e|)] == e;
    Assoc(s, [0x2E], e);
  }

  lemma LevelOneInjective(a: Text, aDir: bool, b: Text, bDir: bool)
    requires LevelOne(a, aDir) && LevelOne(b, bDir) && IsoIdentifier(a, aDir) == IsoIdentifier(b, bDir)
    ensures a == b
  {
    LevelOneKept(a, aDir);
    LevelOneKept(b, bDir);
    LevelOneNoSemicolon(a, aDir);
    LevelOneNoSemicolon(b, bDir);
    if !aDir { assert a == (a + [0x3B, 0x31])[..|a|] && (a + [0x3B, 0x31])[|a|] == 0x3B; }
    if !bDir { assert b == (b + [0x3B, 0x31])[..|b|] && (b + [0x3B, 0x31])[|b|] == 0x3B; }
  }

  lemma LevelOneNoSemicolon(name: Text, isDir: bool)
    requires LevelOne(name, isDir)
    ensures 0x3B !in name && name != []
  {
    if !DName(name, 8) {
      var i :| 0 < i < |name| && DottedAt(name, i);
      assert name == name[..i] + [0x2E] + name[i + 1..];
    }
  }

  // ----- Siblings -----

  /** Identifiers for `names[i..]` in order, each avoiding those already in `acc`. */
  function Assign(names: seq<Text>, i: nat, dirs: set<Text>, acc: map<Text, Str>): map<Text, Str>
    requires i <= |names|
    decreases |names| - i
  {
    if i == |names| then acc
    else Assign(names, i + 1, dirs, acc[names[i] := Pick(names[i], names[i] in dirs, acc.Values)])
  }

  ghost predicate Injective(m: map<Text, Str>) {
    forall a, b {:trigger SameKey(m, a, b)} | a in m && b in m && SameKey(m, a, b) :: a == b
  }

  lemma InjectiveExtends(m: map<Text, Str>, n: Text, id: Str)
    requires Injective(m) && id !in m.Values
    ensures Injective(m[n := id])
  {
    assert forall a <- m :: m[a] in m.Values;
    var u := m[n := id];
    forall a, b | a in u && b in u && SameKey(u, a, b) ensures a == b {
      assert a in m && b in m ==> SameKey(m, a, b) == (m[a] == m[b]);
    }
  }

  /** Identifiers already given out: pairwise distinct, and each of its node's shape. */
  ghost predicate GoodIds(ids: map<Text, Str>, dirs: set<Text>) {
    && Injective(ids)
    && forall n <- ids :: GoodId(ids[n], n in dirs)
  }

  lemma PickExtends(n: Text, dirs: set<Text>, acc: map<Text, Str>)
    requires n !in acc && n != [] && GoodIds(acc, dirs)
    ensures GoodIds(acc[n := Pick(n, n in dirs, acc.Values)], dirs)
  {
    PickShape(n, n in dirs, acc.Values);
    InjectiveExtends(acc, n, Pick(n, n in dirs, acc.Values));
  }

  ghost function Elems(s: seq<Text>): set<Text> { set n | n in s }

  lemma TakeNext(s: seq<Text>, i: nat)
    requires i < |s|
    ensures Elems(s[..i + 1]) == Elems(s[..i]) + {s[i]}
  {
    assert s[..i + 1] == s[..i] + [s[i]];
  }

  /** Siblings get pairwise distinct, non-empty identifiers of the right shape. */
  lemma {:induction false} AssignCorrect(names: seq<Text>, i: nat, dirs: set<Text>, acc: map<Text, Str>)
    requires i <= |names| && forall n <- names :: n != []
    requires Distinct(names) && acc.Keys == Elems(names[..i])
    requires GoodIds(acc, dirs)
    ensures GoodIds(Assign(names, i, dirs, acc), dirs)
    ensures Assign(names, i, dirs, acc).Keys == Elems(names)
    decreases |names| - i
  {
    if i == |names| {
      assert names[..i] == names;
    } else {
      var acc' := acc[names[i] := Pick(names[i], names[i] in dirs, acc.Values)];
      AssignStep(names, i, dirs, acc, acc');
      AssignCorrect(names, i + 1, dirs, acc');
    }
  }

  lemma AssignStep(names: seq<Text>, i: nat, dirs: set<Text>, acc: map<Text, Str>, acc': map<Text, Str>)
    requires i < |names| && forall n <- names :: n != []
    requires Distinct(names) && acc.Keys == Elems(names[..i]) && GoodIds(acc, dirs)
    requires acc' == acc[names[i] := Pick(names[i], names[i] in dirs, acc.Values)]
    ensures acc'.Keys == Elems(names[..i + 1]) && GoodIds(acc', dirs)
  {
    assert names[i] in names && NewAt(names, i);
    PickExtends(names[i], dirs, acc);
    TakeNext(names, i);
  }

  /** The identifiers these names have. */
  ghost function UsedBy(ids: map<Text, Str>, names: seq<Text>): set<Str>
    requires forall n <- names :: n in ids
  {
    set n | n in names :: ids[n]
  }

  /** The final assignment agrees with what was given out on the way. */
  lemma {:induction false} AssignExtends(names: seq<Text>, i: nat, dirs: set<Text>, acc: map<Text, Str>)
    requires i <= |names| && Distinct(names)
    requires acc.Keys == Elems(names[..i])
    ensures forall n <- acc :: n in Assign(names, i, dirs, acc) && Assign(names, i, dirs, acc)[n] == acc[n]
    ensures forall n <- names :: n in Assign(names, i, dirs, acc)
    decreases |names| - i
  {
    if i == |names| {
      assert names[..i] == names;
    } else {
      var n := names[i];
      assert n in names && NewAt(names, i);
      TakeNext(names, i);
      AssignExtends(names, i + 1, dirs, acc[n := Pick(n, n in dirs, acc.Values)]);
    }
  }

  /** Name j gets the first identifier free among those of the names before it. */
  lemma {:induction false} AssignPicks(names: seq<Text>, i: nat, dirs: set<Text>, acc: map<Text, Str>, j: nat)
    requires i <= j < |names| && Distinct(names)
    requires acc.Keys == Elems(names[..i])
    ensures var ids := Assign(names, i, dirs, acc);
            && (forall n <- names :: n in ids)
            && ids[names[j]] == Pick(names[j], names[j] in dirs, UsedBy(ids, names[..j]))
    decreases j - i
  {
    var acc' := acc[names[i] := Pick(names[i], names[i] in dirs, acc.Values)];
    AssignExtends(names, i, dirs, acc);
    TakeNext(names, i);
    assert NewAt(names, i);
    if i == j {
      PickedNow(names, i, dirs, acc, acc');
    } else {
      AssignPicks(names, i + 1, dirs, acc', j);
    }
  }

  lemma PickedNow(names: seq<Text>, i: nat, dirs: set<Text>, acc: map<Text, Str>, acc': map<Text, Str>)
    requires i < |names| && Distinct(names) && acc.Keys == Elems(names[..i]) && acc'.Keys == Elems(names[..i + 1])
    requires acc' == acc[names[i] := Pick(names[i], names[i] in dirs, acc.Values)] && names[i] !in acc
    ensures var ids := Assign(names, i, dirs, acc);
            (forall n <- names :: n in ids)
                && ids[names[i]] == Pick(names[i], names[i] in dirs, UsedBy(ids, names[..i]))
  {
    AssignExtends(names, i + 1, dirs, acc');
    ValuesUsed(names[..i], acc, Assign(names, i, dirs, acc));
  }

  lemma ValuesUsed(names: seq<Text>, acc: map<Text, Str>, ids: map<Text, Str>)
    requires acc.Keys == Elems(names)
    requires forall n <- names :: n in ids && ids[n] == acc[n]
    ensures acc.Values == UsedBy(ids, names)
  {
  }

  lemma ValuesAtMostKeys(m: map<Text, Str>)
    ensures |m.Values| <= |m|
  {
    if m != map[] {
      var k :| k in m;
      var m' := m - {k};
      ValuesAtMostKeys(m');
      assert m'.Keys == m.Keys - {k};
      forall v <- m.Values
        ensures v in m'.Values + {m[k]}
      {
        var j :| j in m && m[j] == v;
        if j != k { assert j in m' && m'[j] == v; }
      }
      SubsetSize(m.Values, m'.Values + {m[k]});
    }
  }

  lemma {:induction false} SubsetSize<T>(a: set<T>, b: set<T>)
    requires a <= b
    ensures |a| <= |b|
  {
    if a != {} {
      var x :| x in a;
      SubsetSize(a - {x}, b - {x});
    }
  }

  /** One identifier more: there is one entry more, and it too is short. */
  lemma OneMoreShort(n: Text, isDir: bool, acc: map<Text, Str>)
    requires n != [] && |acc| < 0xFFFF_FFFF && forall k <- acc :: |acc[k]| <= 25
    ensures var acc' := acc[n := Pick(n, isDir, acc.Values)];
            |acc'| <= |acc| + 1 && forall k <- acc' :: |acc'[k]| <= 25
  {
    ValuesAtMostKeys(acc);
    PickShape(n, isDir, acc.Values);
    assert acc[n := Pick(n, isDir, acc.Values)].Keys == acc.Keys + {n};
  }

  /** With fewer than 2^32 siblings no identifier exceeds 25 bytes. */
  lemma {:induction false} AssignLengths(names: seq<Text>, i: nat, dirs: set<Text>, acc: map<Text, Str>)
    requires i <= |names| < 0x1_0000_0000 && forall n <- names :: n != []
    requires |acc| <= i && forall n <- acc :: |acc[n]| <= 25
    ensures forall n <- Assign(names, i, dirs, acc) :: |Assign(names, i, dirs, acc)[n]| <= 25
    decreases |names| - i
  {
    if i < |names| {
      var n := names[i];
      assert n in names;
      OneMoreShort(n, n in dirs, acc);
      AssignLengths(names, i + 1, dirs, acc[n := Pick(n, n in dirs, acc.Values)]);
    }
  }

  // ----- The reader's view -----

  /** `cleanName`: "." and ".." for the special identifiers, else up to ';' and without a final dot. */
  function CleanName(raw: Str): Str {
    if raw == [0] then [DOT]
    else if raw == [1] then [DOT, DOT]
    else
      var i := IndexOf(raw, SEMICOLON);
      var s := if i >= 0 then raw[..i] else raw;
      if s != [] && s[|s| - 1] == DOT then s[..|s| - 1] else s
  }

  function WithoutDot(s: Text): Text {
    if s != [] && s[|s| - 1] == 0x2E then s[..|s| - 1] else s
  }

  /** Cleaning cuts at the first semicolon and drops one dot at the end; the special identifiers become "." and "..". */
  lemma CleanNameMeans(raw: Str, name: Text, version: Text)
    requires 0x3B !in name
    ensures raw == [0] ==> CleanName(raw) == [0x2E]
    ensures raw == [1] ==> CleanName(raw) == [0x2E, 0x2E]
    ensures raw != [0] && raw != [1] && (raw == name || raw == name + [0x3B] + version)
            ==> CleanName(raw) == WithoutDot(name)
  {
    if raw == name + [0x3B] + version {
      assert raw[|name|] == 0x3B && raw[..|name|] == name && forall j | 0 <= j < |name| :: raw[j] == name[j];
      IndexOfIs(raw, SEMICOLON, |name|);
    }
  }

  predicate IsSpecialName(raw: Str) { raw == [0] || raw == [1] }

  /** Cleaning removes exactly the version of a file identifier and nothing of a directory's. */
  lemma CleanGoodId(id: Str, isDir: bool)
    requires GoodId(id, isDir)
    ensures !IsSpecialName(id)
    ensures CleanName(id) == if isDir then id else id[..|id| - 2]
    ensures isDir ==> SEMICOLON !in id
  {
    if isDir {
      assert NameChar(id[0]);
      assert SEMICOLON !in id;
    } else {
      assert id[|id| - 2] == id[|id| - 2..][0] == SEMICOLON;
      IndexOfIs(id, SEMICOLON, |id| - 2);
    }
  }

  /** Clean names of siblings collide exactly for a directory X beside a file X;1. */
  lemma CleanCollision(a: Str, aDir: bool, b: Str, bDir: bool)
    requires GoodId(a, aDir) && GoodId(b, bDir) && a != b
    ensures CleanName(a) == CleanName(b) <==> (aDir && !bDir && b == a + VERSION) || (bDir && !aDir && a == b + VERSION)
  {
    CleanGoodId(a, aDir);
    CleanGoodId(b, bDir);
    if !aDir { assert a == a[..|a| - 2] + VERSION; }
    if !bDir { assert b == b[..|b| - 2] + VERSION; }
  }

  const LOWER: Text := [0x66]
  const UPPER: Str := [0x46]

  lemma OneLetterBases()
    ensures IsoIdentifier(UPPER, true) == UPPER
    ensures IsoIdentifier(LOWER, false) == UPPER + VERSION
  {
    assert Sanitize(UPPER) == UPPER;
    assert Sanitize(LOWER) == UPPER;
  }

  lemma OneLetterIds()
    ensures DirId(UPPER) && FileId(UPPER + VERSION) && UPPER != UPPER + VERSION
  {
    FileIdFromStem(UPPER);
  }

  /** Two siblings, a directory "F" and a file "f", do collide. */
  lemma CleanCollisionWitness()
    ensures Pick(UPPER, true, {}) == UPPER
    ensures Pick(LOWER, false, {UPPER}) == UPPER + VERSION
    ensures CleanName(UPPER) == CleanName(UPPER + VERSION)
  {
    OneLetterBases();
    OneLetterIds();
    CleanCollision(UPPER, true, UPPER + VERSION, false);
  }
}
