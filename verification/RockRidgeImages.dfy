/** Rock Ridge on an opened image: names and links recorded in System Use Areas are what the filesystem shows. */
module RockRidgeImages {
  import opened Bytes
  import opened DirRecords
  import opened MultiExtents
  import opened DirExtents
  import opened Paths
  import opened Readers
  import opened Resolving
  import opened RockRidge
  import opened Susp
  import opened FileSystems

  // ----- Areas and their continuations -----

  /** Which entry of an area points to the next one, and to where. */
  datatype Hop = Hop(at: nat, block: u32, offset: u32, version: byte)

  predicate Encodable(ess: seq<seq<SuspEntry>>) {
    forall i | 0 <= i < |ess| :: forall e <- ess[i] :: |e.data| <= 251
  }

  /** Area i holds a CE entry, its first, that points to where area i + 1 stands on the image and can be read. */
  ghost predicate Linked(rs: Reader, bs: nat, ess: seq<seq<SuspEntry>>, hops: seq<Hop>, i: nat)
    requires Encodable(ess) && |ess| == |hops| + 1 && i < |hops|
  {
    var next, k := EncodeEntries(ess[i + 1]), hops[i].at;
    var off, n := hops[i].block * bs + hops[i].offset, |next|;
    && 0 < n <= bs && n < TWO32 && k < |ess[i]|
    && ess[i][k] == Pointer(hops[i].block, hops[i].offset, n, hops[i].version)
    && (forall j | 0 <= j < k :: !IsPointer(ess[i][j]))
    && off + n <= |rs.data| && rs.data[off..off + n] == next && rs.reply(off, n) == (n, NoErr)
  }

  /** At most 16 continuations, and the last area points nowhere unless it is the 16th continuation. */
  ghost predicate Chained(rs: Reader, bs: nat, ess: seq<seq<SuspEntry>>, hops: seq<Hop>) {
    && Encodable(ess) && |ess| == |hops| + 1 <= 17
    && (forall i {:trigger Linked(rs, bs, ess, hops, i)} | 0 <= i < |hops| :: Linked(rs, bs, ess, hops, i))
    && (|hops| < 16 ==> forall e <- ess[|hops|] :: !IsPointer(e))
  }

  function EncodeAreas(ess: seq<seq<SuspEntry>>): (areas: seq<Str>)
    requires Encodable(ess)
    ensures |areas| == |ess| && forall i | 0 <= i < |ess| :: areas[i] == EncodeEntries(ess[i])
  {
    seq(|ess|, i requires 0 <= i < |ess| => EncodeEntries(ess[i]))
  }

  function AllEntries(ess: seq<seq<SuspEntry>>): seq<SuspEntry> {
    if ess == [] then [] else ess[0] + AllEntries(ess[1..])
  }

  lemma NextIs(rs: Reader, bs: nat, ess: seq<seq<SuspEntry>>, hops: seq<Hop>, i: nat)
    requires Encodable(ess) && |ess| == |hops| + 1 && i < |hops| && Linked(rs, bs, ess, hops, i)
    ensures NextArea(rs, bs, EncodeEntries(ess[i])) == Some(EncodeEntries(ess[i + 1]))
  {
    var n := |EncodeEntries(ess[i + 1])|;
    EntriesOfEncoded(ess[i]);
    FirstCEMeans(ess[i], hops[i].at, hops[i].block, hops[i].offset, n, hops[i].version);
  }

  lemma AreasStep(rs: Reader, bs: nat, cur: Str, n: nat)
    requires n > 0
    ensures Areas(rs, bs, cur, n) == match NextArea(rs, bs, cur)
                                     case None => []
                                     case Some(next) => [next] + Areas(rs, bs, next, n - 1)
  {
  }

  lemma NoNext(rs: Reader, bs: nat, es: seq<SuspEntry>)
    requires forall e <- es :: |e.data| <= 251 && !IsPointer(e)
    ensures NextArea(rs, bs, EncodeEntries(es)) == None
  {
    EntriesOfEncoded(es);
    NoPointerNoCE(es);
  }

  ghost predicate LeadsOn(rs: Reader, bs: nat, areas: seq<Str>, i: nat)
    requires i + 1 < |areas|
  {
    NextArea(rs, bs, areas[i]) == Some(areas[i + 1])
  }

  lemma {:induction false} AreasAlong(rs: Reader, bs: nat, areas: seq<Str>, i: nat)
    requires i < |areas| <= 17
    requires forall j {:trigger LeadsOn(rs, bs, areas, j)} | 0 <= j < |areas| - 1 :: LeadsOn(rs, bs, areas, j)
    requires |areas| < 17 ==> NextArea(rs, bs, areas[|areas| - 1]) == None
    ensures Areas(rs, bs, areas[i], 16 - i) == areas[i + 1..]
    decreases |areas| - i
  {
    if i < 16 { AreasStep(rs, bs, areas[i], 16 - i); }
    if i + 1 < |areas| {
      assert LeadsOn(rs, bs, areas, i);
      AreasAlong(rs, bs, areas, i + 1);
      assert areas[i + 1..] == [areas[i + 1]] + areas[i + 2..];
    }
  }

  lemma ChainCollected(rs: Reader, bs: nat, ess: seq<seq<SuspEntry>>, hops: seq<Hop>)
    requires Chained(rs, bs, ess, hops)
    ensures Areas(rs, bs, EncodeEntries(ess[0]), 16) == EncodeAreas(ess)[1..]
  {
    var areas := EncodeAreas(ess);
    forall j | 0 <= j < |areas| - 1 ensures LeadsOn(rs, bs, areas, j) {
      assert Linked(rs, bs, ess, hops, j);
      NextIs(rs, bs, ess, hops, j);
    }
    if |hops| < 16 { NoNext(rs, bs, ess[|hops|]); }
    AreasAlong(rs, bs, areas, 0);
  }

  lemma {:induction false} AreasFold(a: Attributes, ess: seq<seq<SuspEntry>>)
    requires Encodable(ess)
    ensures TakeAreas(a, EncodeAreas(ess)) == TakeAll(a, AllEntries(ess))
    decreases |ess|
  {
    if ess != [] {
      EntriesOfEncoded(ess[0]);
      assert EncodeAreas(ess)[1..] == EncodeAreas(ess[1..]);
      TakeAllAppend(a, ess[0], AllEntries(ess[1..]));
      AreasFold(TakeAll(a, ess[0]), ess[1..]);
    }
  }

  lemma AreasTail(ess: seq<seq<SuspEntry>>)
    requires Encodable(ess) && ess != []
    ensures EncodeAreas(ess)[1..] == EncodeAreas(ess[1..])
  {
  }

  lemma FoldFromFirst(ess: seq<seq<SuspEntry>>)
    requires Encodable(ess) && ess != []
    ensures TakeAreas(Parse(EncodeEntries(ess[0])), EncodeAreas(ess[1..])) == TakeAll(NO_ATTRIBUTES, AllEntries(ess))
  {
    EntriesOfEncoded(ess[0]);
    AreasFold(TakeAll(NO_ATTRIBUTES, ess[0]), ess[1..]);
    TakeAllAppend(NO_ATTRIBUTES, ess[0], AllEntries(ess[1..]));
  }

  /** What a chain of areas says is what its entries say, in order. */
  lemma ChainParsed(rs: Reader, bs: nat, ess: seq<seq<SuspEntry>>, hops: seq<Hop>)
    requires Chained(rs, bs, ess, hops)
    ensures Parse(CollectSusp(rs, bs, EncodeEntries(ess[0]))) == TakeAll(NO_ATTRIBUTES, AllEntries(ess))
  {
    ChainCollected(rs, bs, ess, hops);
    AreasTiled(ess);
    AreasTail(ess);
    FoldFromFirst(ess);
    ContinuationsFold(rs, bs, EncodeEntries(ess[0]));
  }

  lemma AreasTiled(ess: seq<seq<SuspEntry>>)
    requires Encodable(ess) && ess != []
    ensures Tiled(EncodeAreas(ess)[0]) && forall a <- EncodeAreas(ess)[1..] :: Tiled(a)
  {
    forall i | 0 <= i < |ess| ensures Tiled(EncodeAreas(ess)[i]) { EntriesOfEncoded(ess[i]); }
  }

  // ----- What a record shows -----

  /** After the bytes to skip, the record's System Use Area holds the first of these areas. */
  ghost predicate Carries(fs: FileSystem, rec: DirRecord, ess: seq<seq<SuspEntry>>, hops: seq<Hop>) {
    && Chained(fs.rs, fs.vol.blockSize, ess, hops) && fs.suspSkip <= |rec.sysUse|
    && rec.sysUse[fs.suspSkip..] == EncodeEntries(ess[0])
  }

  /** An area that points on is not empty. */
  lemma PointerEncoded(rs: Reader, bs: nat, ess: seq<seq<SuspEntry>>, hops: seq<Hop>)
    requires Chained(rs, bs, ess, hops) && |hops| > 0
    ensures EncodeEntries(ess[0]) != []
  {
    assert Linked(rs, bs, ess, hops, 0) && ess[0] != [];
    EntriesOfEncoded(ess[0]);
  }

  lemma CarriedAttributes(fs: FileSystem, rec: DirRecord, ess: seq<seq<SuspEntry>>, hops: seq<Hop>)
    requires Carries(fs, rec, ess, hops)
    ensures fs.RrFor(rec) == TakeAll(NO_ATTRIBUTES, AllEntries(ess))
  {
    ChainParsed(fs.rs, fs.vol.blockSize, ess, hops);
    EntriesOfEncoded(ess[0]);
    if |hops| > 0 {
      PointerEncoded(fs.rs, fs.vol.blockSize, ess, hops);
    } else {
      assert ess[1..] == [] && ess[0] + [] == ess[0];
    }
  }

  /** A record shows the name its NM entries hold, however it is split over them and over continuation areas. */
  lemma NameShown(fs: FileSystem, rec: DirRecord, ess: seq<seq<SuspEntry>>, hops: seq<Hop>, name: Str)
    requires Carries(fs, rec, ess, hops) && NamePieces(AllEntries(ess)) != []
    requires Flat(NamePieces(AllEntries(ess))) == name
    ensures fs.EffectiveName(rec) == name
  {
    CarriedAttributes(fs, rec, ess, hops);
    NameFrom(NO_ATTRIBUTES, AllEntries(ess));
  }

  /** Without NM entries it shows its Joliet name in a Joliet tree, else its cleaned identifier. */
  lemma IdentifierShown(fs: FileSystem, rec: DirRecord, ess: seq<seq<SuspEntry>>, hops: seq<Hop>)
    requires Carries(fs, rec, ess, hops) && NamePieces(AllEntries(ess)) == []
    ensures fs.EffectiveName(rec) == if fs.joliet then JolietName(fs.lib, rec.rawName) else rec.name
  {
    CarriedAttributes(fs, rec, ess, hops);
    NameFrom(NO_ATTRIBUTES, AllEntries(ess));
  }

  /** A record is a link exactly if it has SL entries, and leads to the target they hold, however that is split. */
  lemma LinkShown(fs: FileSystem, rec: DirRecord, ess: seq<seq<SuspEntry>>, hops: seq<Hop>, root: bool,
                  rootRecord: SlComponent, elems: seq<Element>, runs: seq<seq<SlComponent>>,
                  chunks: seq<seq<SlComponent>>)
    requires Carries(fs, rec, ess, hops) && Chunked(AllEntries(ess), chunks) && AllSpelt(elems, runs)
    requires RecordsRoot(rootRecord) && Joined(chunks) == (if root then [rootRecord] else []) + FlatRuns(runs)
    ensures fs.LinkOf(rec) == if chunks == [] then None else Some(Target(root, elems))
  {
    CarriedAttributes(fs, rec, ess, hops);
    TargetTaken(AllEntries(ess), root, rootRecord, elems, runs, chunks);
  }

  // ----- Directories -----

  /** Any records at all in a directory's extent are what the filesystem lists there. */
  lemma DirectoryListed(fs: FileSystem, dir: DirRecord, fields: seq<Fields>, stamp: Stamp)
    requires Conforms(fs.rs) && fs.vol.blockSize == 2048 && CheckDir(2048, dir, fs.maxAlloc) == None
    requires forall f <- fields :: f.Fit() && f.flags < 0x80
    requires InImage(fs.rs.data, 2048, Extent(dir.lba, dir.size))
    requires Piece(fs.rs.data, 2048, Extent(dir.lba, dir.size)) == ExtentBytes(EncodeFields(fields, stamp))
    ensures Yields(fs.rs, fs.Dir(dir), FieldRecords(fields), true)
  {
    var ds := FieldRecords(fields);
    AnyDirectoryReadsBack(fs.rs.data, dir, fs.maxAlloc, fields, stamp);
    ReadsTheDirectory(fs.rs, 2048, dir, fs.maxAlloc);
    forall i | 0 <= i < |ds| ensures Alone(ds[i]) { assert fields[i] in fields; }
    MergeAlone(ds);
  }

  /** Looking up the name that an entry shows finds it, if no earlier ordinary entry shows the same name. */
  lemma ShownEntryFound(fs: FileSystem, dir: DirRecord, es: seq<DirRecord>, k: nat)
    requires dir.IsDir() && fs.Dir(dir) == Ok(es) && k < |es| && es[k].rawName != [0] && es[k].rawName != [1]
    requires forall j | 0 <= j < k :: es[j].rawName == [0] || es[j].rawName == [1]
                                      || fs.EffectiveName(es[j]) != fs.EffectiveName(es[k])
    ensures Enter(fs.Seen(), dir, fs.EffectiveName(es[k])) == Ok(es[k])
  {
    var v := fs.Seen();
    assert forall e :: v.name(e) == fs.EffectiveName(e);
    FirstMatchAt(v, es, fs.EffectiveName(es[k]), 0, k);
  }

  /** So a record written with a System Use Area that holds a name is found by that name. */
  lemma NamedEntryFound(fs: FileSystem, dir: DirRecord, fields: seq<Fields>, stamp: Stamp, k: nat,
                        ess: seq<seq<SuspEntry>>, hops: seq<Hop>, name: Str)
    requires Honest(fs.rs) && fs.vol.blockSize == 2048 && CheckDir(2048, dir, fs.maxAlloc) == None
    requires forall f <- fields :: f.Fit() && f.flags < 0x80
    requires InImage(fs.rs.data, 2048, Extent(dir.lba, dir.size))
    requires Piece(fs.rs.data, 2048, Extent(dir.lba, dir.size)) == ExtentBytes(EncodeFields(fields, stamp))
    requires k < |fields| && fields[k].id != [0] && fields[k].id != [1] && fields[k] in fields
    requires Carries(fs, fields[k].Record(), ess, hops) && NamePieces(AllEntries(ess)) != []
    requires Flat(NamePieces(AllEntries(ess))) == name
    requires forall j | 0 <= j < k :: fields[j] in fields && fs.EffectiveName(fields[j].Record()) != name
    ensures Enter(fs.Seen(), dir, name) == Ok(fields[k].Record())
  {
    DirectoryListed(fs, dir, fields, stamp);
    NameShown(fs, fields[k].Record(), ess, hops, name);
    ShownEntryFound(fs, dir, FieldRecords(fields), k);
  }

  // ----- Links in paths -----

  /** A path that ends in a link leads, if it leads anywhere, where the same path with a relative target in place of the
      link leads, or where an absolute target leads from the root. */
  lemma PathThroughLink(fs: FileSystem, a: seq<Text>, name: Text, d: DirRecord, c: DirRecord, t: Text)
    requires (forall x <- a + [name] :: Component(x)) && fs.Lookup(JoinPath(a)) == Ok(d)
    requires Enter(fs.Seen(), d, name) == Ok(c) && fs.LinkOf(c) == Some(t)
    requires fs.Lookup(JoinPath(a + [name])).Ok?
    ensures t == [] || t[0] != 0x2F ==> fs.Lookup(JoinPath(a + [name])) == fs.Lookup(JoinPath(a + SplitPath(t)))
    ensures t != [] && t[0] == 0x2F ==> fs.Lookup(JoinPath(a + [name])) == fs.Lookup(t)
  {
    var v := fs.Seen();
    assert v.link(c) == Some(t) && v.root == fs.root;
    SplitComponentsUsable(t);
    assert forall x <- a :: x in a + [name];
    SplitUndoesJoin(a);
    SplitUndoesJoin(a + [name]);
    SplitUndoesJoin(a + SplitPath(t));
    if t == [] || t[0] != 0x2F {
      RelativeLink(v, fs.root, a, name, d, c, t, 0);
    } else {
      AbsoluteLink(v, fs.root, a, name, d, c, t, 0);
    }
  }

  // ----- Which tree is opened -----

  /** If the first entry named "." of the primary root has an SP entry with its check bytes, the first such one gives
      the bytes to skip and the primary tree is opened; without one, the Joliet tree if there is one, else the
      primary. */
  lemma ChooseMeans(rs: Reader, size: int, lib: Library, vol: OpenVolume, es: seq<DirRecord>, dot: nat,
                    entries: seq<SuspEntry>, k: nat)
    requires ReadDirOver(rs, vol.blockSize, vol.pvdRoot, AllocCeiling(size)) == Ok(es)
    requires dot < |es| && es[dot].rawName == [0] && forall j | 0 <= j < dot :: es[j].rawName != [0]
    requires (forall e <- entries :: |e.data| <= 251) && es[dot].sysUse == EncodeEntries(entries)
    requires k <= |entries| && (forall j | 0 <= j < k :: !Announces(entries[j]))
    requires k < |entries| ==> Announces(entries[k])
    ensures var fs := Choose(rs, size, lib, vol);
            && fs.rs == rs && fs.size == size && fs.lib == lib && fs.vol == vol
            && if k < |entries| then fs.root == vol.pvdRoot && !fs.joliet && fs.suspSkip == entries[k].data[2] as int
               else && fs.root == (if vol.hasJoliet then vol.jolietRoot else vol.pvdRoot)
                    && fs.joliet == vol.hasJoliet && fs.suspSkip == 0
  {
    AnnouncementRead(rs, size, vol, es, dot, entries);
    FirstSPMeans(entries, k);
  }

  lemma AnnouncementRead(rs: Reader, size: int, vol: OpenVolume, es: seq<DirRecord>, dot: nat, entries: seq<SuspEntry>)
    requires ReadDirOver(rs, vol.blockSize, vol.pvdRoot, AllocCeiling(size)) == Ok(es)
    requires dot < |es| && es[dot].rawName == [0] && forall j | 0 <= j < dot :: es[j].rawName != [0]
    requires (forall e <- entries :: |e.data| <= 251) && es[dot].sysUse == EncodeEntries(entries)
    ensures PrimarySusp(rs, size, vol) == FirstSP(entries)
  {
    FirstDotAt(es, 0, dot);
    EntriesOfEncoded(entries);
  }

  lemma {:induction false} FirstDotAt(es: seq<DirRecord>, i: nat, dot: nat)
    requires i <= dot < |es| && es[dot].rawName == [0] && forall j | i <= j < dot :: es[j].rawName != [0]
    ensures FirstDot(es, i) == Some(es[dot])
    decreases dot - i
  {
    if i < dot { FirstDotAt(es, i + 1, dot); }
  }
}
