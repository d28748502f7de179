/** An opened filesystem: continuation areas, names, the choice of tree, lookup (fs.go). */
module FileSystems {
  import opened Bytes
  import opened Identifiers
  import opened DirRecords
  import opened DirExtents
  import opened Paths
  import opened Readers
  import opened Resolving
  import opened RockRidge
  import opened Susp
  import opened Volumes

  // ----- collectSUSP -----

  const MAX_AREAS: nat := 16

  /** Where the continuation area that `cur` points to lies, if it has a sane length. */
  function NextPlace(bs: nat, cur: Str): (place: Option<(nat, nat)>)
    ensures place.Some? ==> 0 < place.value.1 <= bs
  {
    match FirstCE(Entries(cur, 0))
    case None => None
    case Some(c) =>
      if c.length == 0 || c.length > bs then None else Some((c.block * bs + c.offset, c.length))
  }

  /** The continuation area that `cur` points to, if reading it reports no error. */
  function NextArea(rs: Reader, bs: nat, cur: Str): (area: Option<Str>)
    ensures area.Some? ==> 0 < |area.value| <= bs
  {
    match NextPlace(bs, cur)
    case None => None
    case Some((off, length)) =>
      if rs.reply(off, length).1 != NoErr || off + length > |rs.data| then None
      else Some(Slice(rs.data, off, length))
  }

  /** At most n areas along the chain from `cur`. */
  function Areas(rs: Reader, bs: nat, cur: Str, n: nat): (areas: seq<Str>)
    ensures |areas| <= n
    decreases n
  {
    if n == 0 then []
    else match NextArea(rs, bs, cur)
      case None => []
      case Some(area) => [area] + Areas(rs, bs, area, n - 1)
  }

  function CollectSusp(rs: Reader, bs: nat, sua: Str): Str { sua + Flat(Areas(rs, bs, sua, MAX_AREAS)) }

  /** `collectSUSP`: the area and every continuation it chains to, cyclic chains included, but no more than 16, and none
      from the first on that cannot be read. */
  method CollectSuspFrom(rs: Reader, bs: nat, sua: Str) returns (out: Str)
    requires Conforms(rs)
    ensures out == CollectSusp(rs, bs, sua)
  {
    out := sua;
    var cur := sua;
    for i := 0 to MAX_AREAS
      invariant out + Flat(Areas(rs, bs, cur, MAX_AREAS - i)) == CollectSusp(rs, bs, sua)
    {
      var area := ReadArea(rs, bs, cur);
      AreasNext(rs, bs, cur, MAX_AREAS - i, area, out);
      if area.None? { return; }
      out := out + area.value;
      cur := area.value;
    }
    assert Flat([]) == [] && out + [] == out;
  }

  /** One step along the chain. */
  method ReadArea(rs: Reader, bs: nat, cur: Str) returns (area: Option<Str>)
    requires Conforms(rs)
    ensures area == NextArea(rs, bs, cur)
  {
    var ce := CeEntry(cur);
    if ce.None? || ce.value.length == 0 || ce.value.length > bs { return None; }
    var off: nat, length := ce.value.block * bs + ce.value.offset, ce.value.length;
    assert ConformsAt(rs, off, length);
    var (m, err) := rs.reply(off, length);
    if err != NoErr { return None; }
    return Some(Slice(rs.data, off, length));
  }

  lemma AreasNext(rs: Reader, bs: nat, cur: Str, n: nat, area: Option<Str>, out: Str)
    requires n > 0 && NextArea(rs, bs, cur) == area
    ensures area.Some?
            ==> out + Flat(Areas(rs, bs, cur, n)) == out + area.value + Flat(Areas(rs, bs, area.value, n - 1))
    ensures area.None? ==> out + Flat(Areas(rs, bs, cur, n)) == out
  {
    if area.Some? {
      var rest := Areas(rs, bs, area.value, n - 1);
      assert ([area.value] + rest)[0] == area.value && ([area.value] + rest)[1..] == rest;
      Assoc(out, area.value, Flat(rest));
    }
  }

  function LastOf(sua: Str, areas: seq<Str>): Str { if areas == [] then sua else areas[|areas| - 1] }

  /** The next area is in the image, but reading it reports an error. */
  predicate Unreadable(rs: Reader, bs: nat, cur: Str) {
    NextArea(MemReader(rs.data), bs, cur).Some? && NextArea(rs, bs, cur).None?
  }

  /** A read error ends the chain silently: what is collected is what an honest reader would collect, up to the first
      area that cannot be read, and all of it exactly if there is none. */
  lemma {:induction false} UnreadableAreaEndsChain(rs: Reader, bs: nat, cur: Str, n: nat)
    requires Conforms(rs)
    ensures var got, want := Areas(rs, bs, cur, n), Areas(MemReader(rs.data), bs, cur, n);
            && got <= want
            && (got != want <==> |got| < n && Unreadable(rs, bs, LastOf(cur, got)))
    decreases n
  {
    if n > 0 && NextArea(rs, bs, cur).Some? {
      var area := NextArea(rs, bs, cur).value;
      assert NextArea(MemReader(rs.data), bs, cur) == Some(area);
      UnreadableAreaEndsChain(rs, bs, area, n - 1);
      var got, want := Areas(rs, bs, area, n - 1), Areas(MemReader(rs.data), bs, area, n - 1);
      assert LastOf(cur, [area] + got) == LastOf(area, got);
      assert ([area] + got)[1..] == got && ([area] + want)[1..] == want;
    }
  }

  /** The state machine run over the areas in chain order. */
  function TakeAreas(a: Attributes, areas: seq<Str>): Attributes
    decreases |areas|
  {
    if areas == [] then a else TakeAreas(TakeAll(a, Entries(areas[0], 0)), areas[1..])
  }

  lemma {:induction false} FlatFolds(s: Str, areas: seq<Str>)
    requires Tiled(s) && forall a <- areas :: Tiled(a)
    ensures Parse(s + Flat(areas)) == TakeAreas(Parse(s), areas)
    decreases |areas|
  {
    if areas == [] {
      assert s + [] == s;
    } else {
      var a, rest := areas[0], areas[1..];
      TiledThen(s, a);
      TakeAllAppend(NO_ATTRIBUTES, Entries(s, 0), Entries(a, 0));
      TiledBoth(s, a);
      Assoc(s, a, Flat(rest));
      FlatFolds(s + a, rest);
    }
  }

  lemma TiledBoth(s: Str, a: Str)
    requires Tiled(s) && Tiled(a)
    ensures Tiled(s + a)
  {
    StopLater(s, a, 0);
    EntriesShift(s, a, 0);
  }

  lemma {:induction false} StopLater(s: Str, more: Str, o: nat)
    requires o <= |s|
    ensures StopAt(s + more, o) == StopAt(s + more, StopAt(s, o))
    decreases |s| - o
  {
    if HasEntry(s, o) {
      var next := o + s[o + 2];
      EntryBefore(s, more, o);
      EntriesStep(s, o, next);
      EntriesStep(s + more, o, next);
      StopLater(s, more, next);
    }
  }

  /** When every area is exactly tiled by entries, parsing the collected bytes is folding the state machine over the
      area and its continuations in chain order. */
  lemma ContinuationsFold(rs: Reader, bs: nat, sua: Str)
    requires Tiled(sua) && forall a <- Areas(rs, bs, sua, MAX_AREAS) :: Tiled(a)
    ensures Parse(CollectSusp(rs, bs, sua)) == TakeAreas(Parse(sua), Areas(rs, bs, sua, MAX_AREAS))
    ensures |Areas(rs, bs, sua, MAX_AREAS)| <= 16
  {
    FlatFolds(sua, Areas(rs, bs, sua, MAX_AREAS));
  }

  // ----- Filesystems -----

  type OpenVolume = v: Volume | v.blockSize > 0
    witness Volume([], 2048, 0, EMPTY_RECORD, EMPTY_RECORD, false)

  /** What the driver takes from its library: case folding of names, and decoding of big-endian UTF-16. */
  datatype Library = Library(fold: (Text, Text) -> bool, utf16: Str -> Text)

  datatype FileSystem = FileSystem(rs: Reader, size: int, lib: Library, vol: OpenVolume, root: DirRecord, joliet: bool,
                                   suspSkip: nat)
  {
    const maxAlloc := AllocCeiling(size)
    const bs: nat := vol.blockSize

    function Dir(rec: DirRecord): Result<seq<DirRecord>> { ReadDirOver(rs, vol.blockSize, rec, maxAlloc) }

    function RrFor(rec: DirRecord): Attributes {
      if |rec.sysUse| <= suspSkip then NO_ATTRIBUTES else Parse(CollectSusp(rs, bs, rec.sysUse[suspSkip..]))
    }

    function EffectiveName(rec: DirRecord): Text {
      var rr := RrFor(rec);
      if rr.hasName then rr.name else if joliet then JolietName(lib, rec.rawName) else rec.name
    }

    function LinkOf(rec: DirRecord): Option<Text> {
      var rr := RrFor(rec);
      if rr.isSymlink then Some(rr.link.target) else None
    }

    function Seen(): View {
      View(root, rec => Dir(rec), rec => EffectiveName(rec), rec => LinkOf(rec), lib.fold)
    }

    /** `resolve`. */
    function Lookup(path: Text): Result<DirRecord> { Resolve(Seen(), root, SplitPath(path), 0, true, 0) }

    /** `ReadFile`. */
    function FileAt(path: Text): Result<Str> {
      match Lookup(path)
      case Err(e) => Err(e)
      case Ok(rec) => ReadFileOver(rs, vol.blockSize, rec, maxAlloc)
    }

    /** `ListDir`. */
    function ListingAt(path: Text): Result<seq<Listed>> {
      match Lookup(path)
      case Err(e) => Err(e)
      case Ok(rec) => match Dir(rec)
        case Err(e) => Err(e)
        case Ok(es) => Ok(ListEach(Lister(), es))
    }

    function Lister(): DirRecord -> seq<Listed> { e => ListOne(e) }

    function ListOne(e: DirRecord): seq<Listed> {
      if e.IsSpecial() then [] else [Listed(e.lba, EffectiveName(e), if e.IsDir() then 2 else 0)]
    }
  }

  /** The entries of a directory but "." and "..". */
  function Ordinary(es: seq<DirRecord>): seq<DirRecord> {
    if es == [] then []
    else Ordinary(es[..|es| - 1])
         + if es[|es| - 1].rawName == [0] || es[|es| - 1].rawName == [1] then [] else [es[|es| - 1]]
  }

  lemma {:induction false} ListEachMeans(fs: FileSystem, es: seq<DirRecord>)
    ensures var ls, os := ListEach(fs.Lister(), es), Ordinary(es);
            && |ls| == |os|
            && forall i | 0 <= i < |os| ::
                 ls[i] == Listed(os[i].lba, fs.EffectiveName(os[i]), if os[i].flags / 2 % 2 == 1 then 2 else 0)
  {
    if es != [] { ListEachMeans(fs, es[..|es| - 1]); }
  }

  /** Listing gives each ordinary entry of the directory, in the order they are recorded: the sector of its extent, the
      name it shows, and 2 for a directory. */
  lemma ListDirMeans(fs: FileSystem, path: Text, dir: DirRecord, es: seq<DirRecord>)
    requires fs.Lookup(path) == Ok(dir) && fs.Dir(dir) == Ok(es)
    ensures var r, os := fs.ListingAt(path), Ordinary(es);
            && r.Ok? && |r.value| == |os|
            && forall i | 0 <= i < |os| ::
                 r.value[i] == Listed(os[i].lba, fs.EffectiveName(os[i]), if os[i].flags / 2 % 2 == 1 then 2 else 0)
  {
    ListEachMeans(fs, es);
  }

  /** A directory entry as `ListDir` reports it. */
  datatype Listed = Listed(inode: u32, name: Text, ftype: byte)

  function ListEach(one: DirRecord -> seq<Listed>, es: seq<DirRecord>): seq<Listed> {
    if es == [] then [] else ListEach(one, es[..|es| - 1]) + one(es[|es| - 1])
  }

  function JolietName(lib: Library, raw: Str): Text {
    if raw == [0] then [DOT]
    else if raw == [1] then [DOT, DOT]
    else
      var all := lib.utf16(raw);
      var i := IndexOf(all, SEMICOLON);
      var s := if i >= 0 then all[..i] else all;
      if s != [] && s[|s| - 1] == DOT then s[..|s| - 1] else s
  }

  /** A Joliet name is its characters up to a semicolon, without one dot at the end. */
  lemma JolietNameMeans(lib: Library, raw: Str, name: Text, version: Text)
    requires 0x3B !in name
    ensures raw == [0] ==> JolietName(lib, raw) == [0x2E]
    ensures raw == [1] ==> JolietName(lib, raw) == [0x2E, 0x2E]
    ensures raw != [0] && raw != [1] && (lib.utf16(raw) == name || lib.utf16(raw) == name + [0x3B] + version)
            ==> JolietName(lib, raw) == WithoutDot(name)
  {
    var all := lib.utf16(raw);
    if all == name + [0x3B] + version {
      assert all[|name|] == 0x3B && all[..|name|] == name && forall j | 0 <= j < |name| :: all[j] == name[j];
      IndexOfIs(all, SEMICOLON, |name|);
    }
  }

  // ----- Open -----

  function FirstDot(es: seq<DirRecord>, i: nat): Option<DirRecord>
    decreases |es| - i
  {
    if i >= |es| then None else if es[i].rawName == [0] then Some(es[i]) else FirstDot(es, i + 1)
  }

  /** The SUSP skip of the primary tree, if its root can be read and announces one. */
  function PrimarySusp(rs: Reader, size: int, vol: OpenVolume): Option<byte> {
    match ReadDirOver(rs, vol.blockSize, vol.pvdRoot, AllocCeiling(size))
    case Err(_) => None
    case Ok(es) => match FirstDot(es, 0)
      case None => None
      case Some(dot) => FirstSP(Entries(dot.sysUse, 0))
  }

  /** A Rock Ridge primary tree wins, then a Joliet tree, then the plain primary tree. */
  function Choose(rs: Reader, size: int, lib: Library, vol: OpenVolume): FileSystem {
    match PrimarySusp(rs, size, vol)
    case Some(skip) => FileSystem(rs, size, lib, vol, vol.pvdRoot, false, skip)
    case None =>
      if vol.hasJoliet then FileSystem(rs, size, lib, vol, vol.jolietRoot, true, 0)
      else FileSystem(rs, size, lib, vol, vol.pvdRoot, false, 0)
  }

  /** Opening does not report that the primary root cannot be read: it chooses another tree than it would over an honest
      reader exactly if there is Rock Ridge to miss. */
  lemma UnreadableRootMissesRockRidge(rs: Reader, size: int, lib: Library, vol: OpenVolume)
    requires Conforms(rs)
    ensures var got, want := Choose(rs, size, lib, vol), Choose(MemReader(rs.data), size, lib, vol);
            var susp := PrimarySusp(MemReader(rs.data), size, vol);
            got != want.(rs := rs) <==>
            && ReadDirOver(rs, vol.blockSize, vol.pvdRoot, AllocCeiling(size)).Err?
            && susp.Some? && (vol.hasJoliet || susp.value != 0)
  {
    ReadsTheDirectory(rs, vol.blockSize, vol.pvdRoot, AllocCeiling(size));
    ReadsTheDirectory(MemReader(rs.data), vol.blockSize, vol.pvdRoot, AllocCeiling(size));
  }

  lemma {:induction false} BlockSizeGiven(rs: Reader, sector: nat, s: Progress)
    requires !s.done && (s.havePvd ==> s.v.blockSize > 0)
    ensures ReadDescriptorsOver(rs, sector, s).Ok? ==> ReadDescriptorsOver(rs, sector, s).value.blockSize > 0
    decreases MAX_DESCRIPTOR_SECTOR - sector
  {
    if sector < MAX_DESCRIPTOR_SECTOR && sector * 2048 + 2048 <= |rs.data| {
      var next := ReadDescriptor(Slice(rs.data, sector * 2048, 2048), s);
      if next.Ok? && !next.value.done { BlockSizeGiven(rs, sector + 1, next.value); }
    }
  }

  function Opened(rs: Reader, size: int, lib: Library): Result<FileSystem> {
    match VolumeOver(rs)
    case Err(e) => Err(e)
    case Ok(v) =>
      BlockSizeGiven(rs, SYSTEM_AREA_SECTORS, Progress(NO_VOLUME, false, false));
      Ok(Choose(rs, size, lib, v))
  }

  // ----- The driver's own object -----

  class FS {
    const rs: Reader
    const size: int
    const lib: Library
    const vol: OpenVolume
    var root: DirRecord
    var joliet: bool
    var suspSkip: nat

    ghost function Value(): FileSystem
      reads this
    {
      FileSystem(rs, size, lib, vol, root, joliet, suspSkip)
    }

    constructor (rs: Reader, size: int, lib: Library, vol: OpenVolume)
      ensures this.rs == rs && this.size == size && this.lib == lib && this.vol == vol
      ensures joliet == false && suspSkip == 0
    {
      this.rs, this.size, this.lib, this.vol := rs, size, lib, vol;
      root, joliet, suspSkip := EMPTY_RECORD, false, 0;
    }

    /** `primarySUSP`. */
    method FindSusp() returns (skip: Option<byte>)
      requires Conforms(rs)
      ensures skip == PrimarySusp(rs, size, vol)
    {
      var entries := ReadDirRecordsFrom(rs, vol.blockSize, vol.pvdRoot, AllocCeiling(size));
      if entries.Err? { return None; }
      var es := entries.value;
      for i := 0 to |es|
        invariant FirstDot(es, i) == FirstDot(es, 0)
      {
        if es[i].rawName == [0] {
          skip := DetectSuspSkip(es[i].sysUse);
          return;
        }
      }
      return None;
    }

    method ChooseTree()
      requires Conforms(rs) && joliet == false && suspSkip == 0
      modifies this
      ensures Value() == Choose(rs, size, lib, vol)
    {
      var skip := FindSusp();
      if skip.Some? {
        root, suspSkip, joliet := vol.pvdRoot, skip.value, false;
      } else if vol.hasJoliet {
        root, joliet := vol.jolietRoot, true;
      } else {
        root := vol.pvdRoot;
      }
    }

    method ReadRr(rec: DirRecord) returns (rr: Attributes)
      requires Conforms(rs)
      ensures rr == Value().RrFor(rec)
    {
      if |rec.sysUse| <= suspSkip { return NO_ATTRIBUTES; }
      var sua := CollectSuspFrom(rs, vol.blockSize, rec.sysUse[suspSkip..]);
      rr := ParseRockRidge(sua);
    }

    method NameOf(rec: DirRecord) returns (name: Text)
      requires Conforms(rs)
      ensures name == Value().EffectiveName(rec)
    {
      var rr := ReadRr(rec);
      if rr.hasName { return rr.name; }
      return if joliet then JolietName(lib, rec.rawName) else rec.name;
    }

    /** One of the two searches of `resolveFrom`. */
    method Search(es: seq<DirRecord>, name: Text, exact: bool) returns (c: Option<DirRecord>)
      requires Conforms(rs)
      ensures c == FirstMatch(Value().Seen(), es, name, exact, 0)
    {
      ghost var v := Value().Seen();
      for i := 0 to |es|
        invariant FirstMatch(v, es, name, exact, i) == FirstMatch(v, es, name, exact, 0)
      {
        if !es[i].IsSpecial() {
          var n := NameOf(es[i]);
          if (if exact then n == name else lib.fold(n, name)) { return Some(es[i]); }
        }
      }
      return None;
    }

    /** Looks one component up in a directory. */
    method Step(cur: DirRecord, name: Text) returns (r: Result<DirRecord>)
      requires Conforms(rs)
      ensures r == Enter(Value().Seen(), cur, name)
    {
      if !cur.IsDir() { return Err(NotDirectory); }
      var entries := ReadDirRecordsFrom(rs, vol.blockSize, cur, AllocCeiling(size));
      if entries.Err? { return Err(entries.error); }
      var child := Search(entries.value, name, true);
      if child.None? { child := Search(entries.value, name, false); }
      return if child.Some? then Ok(child.value) else Err(NotFound);
    }

    method ResolveFrom(start: DirRecord, parts: seq<Text>, followFinal: bool, hops: nat) returns (r: Result<DirRecord>)
      requires Conforms(rs)
      ensures r == Resolve(Value().Seen(), start, parts, 0, followFinal, hops)
      decreases MAX_HOPS + 1 - hops, 2
    {
      ghost var v := Value().Seen();
      if hops > MAX_HOPS { return Err(TooManyLinks); }
      var cur := start;
      for i := 0 to |parts|
        invariant Resolve(v, cur, parts, i, followFinal, hops) == Resolve(v, start, parts, 0, followFinal, hops)
      {
        var next := NextComponent(cur, parts, i, followFinal, hops);
        ResolveNext(v, cur, parts, i, followFinal, hops);
        if next.Err? { return next; }
        cur := next.value;
      }
      return Ok(cur);
    }

    /** One component of a path, and the link it may lead to. */
    method NextComponent(cur: DirRecord, parts: seq<Text>, i: nat, followFinal: bool, hops: nat)
      returns (r: Result<DirRecord>)
      requires Conforms(rs) && i < |parts| && hops <= MAX_HOPS
      ensures r == NextOf(Value().Seen(), cur, parts, i, followFinal, hops)
      decreases MAX_HOPS + 1 - hops, 1
    {
      ghost var v := Value().Seen();
      r := Step(cur, parts[i]);
      if r.Err? {
        NextFails(v, cur, parts, i, followFinal, hops);
        return;
      }
      var child := r.value;
      var link := ReadLink(child);
      var last := i == |parts| - 1;
      if link.Some? && (!last || followFinal) {
        r := Follow(cur, link.value, hops);
        NextIsTarget(v, cur, parts, i, followFinal, hops, child, BaseOf(v, cur, link.value), link.value, r);
      } else {
        NextIsEntry(v, cur, parts, i, followFinal, hops, child);
      }
    }

    /** The link a record is, if it is one. */
    method ReadLink(rec: DirRecord) returns (link: Option<Text>)
      requires Conforms(rs)
      ensures link == Value().Seen().link(rec)
    {
      var rr := ReadRr(rec);
      return if rr.isSymlink then Some(rr.link.target) else None;
    }

    /** Resolves a link met in `cur`. */
    method Follow(cur: DirRecord, target: Text, hops: nat) returns (r: Result<DirRecord>)
      requires Conforms(rs) && hops <= MAX_HOPS
      ensures r == Resolve(Value().Seen(), BaseOf(Value().Seen(), cur, target), SplitPath(target), 0, true, hops + 1)
      decreases MAX_HOPS + 1 - hops, 0
    {
      var base := cur;
      if target != [] && target[0] == SLASH { base := root; }
      var comps := SplitComponents(target);
      r := ResolveFrom(base, comps, true, hops + 1);
    }

    method ReadFileAt(path: Text) returns (r: Result<Str>)
      requires Conforms(rs)
      ensures r == Value().FileAt(path)
    {
      var comps := SplitComponents(path);
      var rec := ResolveFrom(root, comps, true, 0);
      if rec.Err? { return Err(rec.error); }
      ghost var buf;
      r, buf := ReadFileFrom(rs, vol.blockSize, rec.value, AllocCeiling(size));
    }

    method ListDir(path: Text) returns (r: Result<seq<Listed>>)
      requires Conforms(rs)
      ensures r == Value().ListingAt(path)
    {
      var comps := SplitComponents(path);
      var rec := ResolveFrom(root, comps, true, 0);
      if rec.Err? { return Err(rec.error); }
      var entries := ReadDirRecordsFrom(rs, vol.blockSize, rec.value, AllocCeiling(size));
      if entries.Err? { return Err(entries.error); }
      var es := entries.value;
      var out: seq<Listed> := [];
      for i := 0 to |es|
        invariant out == ListEach(Value().Lister(), es[..i])
      {
        assert es[..i + 1][..i] == es[..i];
        if es[i].IsSpecial() { continue; }
        var name := NameOf(es[i]);
        out := out + [Listed(es[i].lba, name, if es[i].IsDir() then 2 else 0)];
      }
      assert es[..|es|] == es;
      return Ok(out);
    }
  }

  /** `Open`. */
  method Open(rs: Reader, size: int, lib: Library) returns (r: Result<FS>)
    requires Conforms(rs)
    ensures match Opened(rs, size, lib)
            case Ok(fs) => r.Ok? && r.value.rs == rs && r.value.Value() == fs
            case Err(e) => r == Err(e)
  {
    var vol := ReadVolume(rs);
    if vol.Err? { return Err(vol.error); }
    BlockSizeGiven(rs, SYSTEM_AREA_SECTORS, Progress(NO_VOLUME, false, false));
    var fs := new FS(rs, size, lib, vol.value);
    fs.ChooseTree();
    return Ok(fs);
  }
}
