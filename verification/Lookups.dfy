/** Reading undoes writing, by path: every entry of a mastered tree is found under its cleaned identifiers. */
module Lookups {
  import opened Bytes
  import opened Identifiers
  import opened Ordering
  import opened DirRecords
  import opened DirExtents
  import opened Readers
  import opened Paths
  import opened Trees
  import opened Layouts
  import opened PathTables
  import opened DirWriters
  import opened Volumes
  import opened Resolving
  import opened FileSystems
  import opened Images
  import opened RoundTrips

  // ----- Searching a sorted directory -----

  /** The entries `es` are two special ones and then one for each of the sorted identifiers. */
  ghost predicate Sorted(v: View, es: seq<DirRecord>, ids: seq<Str>, dirs: seq<bool>) {
    && |ids| == |dirs| && |es| == |ids| + 2 && es[0].IsSpecial() && es[1].IsSpecial()
    && (forall k {:trigger EntryIs(v, es, ids, dirs, k)} | 0 <= k < |ids| :: EntryIs(v, es, ids, dirs, k))
    && (forall a, b {:trigger InOrder(ids, a, b)} | 0 <= a < b < |ids| :: InOrder(ids, a, b))
  }

  ghost predicate EntryIs(v: View, es: seq<DirRecord>, ids: seq<Str>, dirs: seq<bool>, k: nat)
    requires k < |ids| && |ids| == |dirs| && |es| == |ids| + 2
  {
    !es[k + 2].IsSpecial() && v.name(es[k + 2]) == CleanName(ids[k]) && GoodId(ids[k], dirs[k])
  }

  predicate InOrder(ids: seq<Str>, a: nat, b: nat)
    requires a < |ids| && b < |ids|
  {
    Less(ids[a], ids[b])
  }

  /** A directory X hides the file X;1 beside it. */
  predicate Hides(ids: seq<Str>, dirs: seq<bool>, j: nat, i: nat)
    requires i < |ids| == |dirs| && j < |ids|
  {
    dirs[j] && !dirs[i] && ids[i] == ids[j] + VERSION
  }

  /** Only a hidden or a hiding sibling has the same clean name, and the hiding one sorts first. */
  lemma SameCleanName(v: View, es: seq<DirRecord>, ids: seq<Str>, dirs: seq<bool>, i: nat, a: nat)
    requires Sorted(v, es, ids, dirs) && i < |ids| && a < |ids| && a != i && CleanName(ids[a]) == CleanName(ids[i])
    ensures Hides(ids, dirs, a, i) || (Hides(ids, dirs, i, a) && i < a)
    ensures Hides(ids, dirs, a, i) ==> a < i
  {
    assert EntryIs(v, es, ids, dirs, i) && EntryIs(v, es, ids, dirs, a);
    assert if a < i then InOrder(ids, a, i) else InOrder(ids, i, a);
    if ids[a] == ids[i] { LessIrreflexive(ids[a]); }
    CleanCollision(ids[a], dirs[a], ids[i], dirs[i]);
    SortsFirst(ids, dirs, a, i);
    SortsFirst(ids, dirs, i, a);
  }

  lemma SortsFirst(ids: seq<Str>, dirs: seq<bool>, j: nat, i: nat)
    requires i < |ids| == |dirs| && j < |ids| && j != i && (if j < i then InOrder(ids, j, i) else InOrder(ids, i, j))
    ensures Hides(ids, dirs, j, i) ==> j < i
  {
    if Hides(ids, dirs, j, i) && i < j {
      PrefixLess(ids[j], VERSION);
      LessTrans(ids[j], ids[i], ids[j]);
      LessIrreflexive(ids[j]);
    }
  }

  /** Nothing before entry k has its clean name, unless a directory hides it. */
  lemma NoEarlierMatch(v: View, es: seq<DirRecord>, ids: seq<Str>, dirs: seq<bool>, k: nat, j: nat)
    requires Sorted(v, es, ids, dirs) && k < |ids| && forall a | 0 <= a < |ids| :: !Hides(ids, dirs, a, k)
    requires j < k + 2
    ensures !Matches(v, es[j], CleanName(ids[k]), true)
  {
    if j >= 2 && Matches(v, es[j], CleanName(ids[k]), true) {
      assert EntryIs(v, es, ids, dirs, j - 2);
      SameCleanName(v, es, ids, dirs, k, j - 2);
    }
  }

  /** Nothing hides a directory. */
  lemma HidesNoDirectory(ids: seq<Str>, dirs: seq<bool>, k: nat, i: nat)
    requires i < |ids| == |dirs| && k < |ids| && Hides(ids, dirs, k, i)
    ensures forall a | 0 <= a < |ids| :: !Hides(ids, dirs, a, k)
  {
  }

  /** Searching for the clean name of entry i finds k: the entry itself, or the directory that hides it. */
  lemma SearchFinds(v: View, es: seq<DirRecord>, ids: seq<Str>, dirs: seq<bool>, i: nat, k: nat)
    requires Sorted(v, es, ids, dirs) && i < |ids| && k < |ids|
    requires if k == i then forall j | 0 <= j < |ids| :: !Hides(ids, dirs, j, i) else Hides(ids, dirs, k, i)
    ensures Find(v, es, CleanName(ids[i])) == Some(es[k + 2])
  {
    assert EntryIs(v, es, ids, dirs, i) && EntryIs(v, es, ids, dirs, k);
    if k != i {
      HidesNoDirectory(ids, dirs, k, i);
      CleanCollision(ids[k], dirs[k], ids[i], dirs[i]);
    }
    forall j | 0 <= j < k + 2 ensures !Matches(v, es[j], CleanName(ids[k]), true) {
      NoEarlierMatch(v, es, ids, dirs, k, j);
    }
    FirstMatchAt(v, es, CleanName(ids[k]), 0, k + 2);
  }

  // ----- One step into a mastered directory -----

  /** The setting of every statement below: an image of `t`, opened over some reader, its size known or not. */
  ghost predicate Opens(t: Tree, pl: Plan, v: Text, stamp: Stamp, ts: VolumeTime, fs: FileSystem) {
    && Plots(t, pl) && Conforms(fs.rs) && Mastered(fs.rs.data, t, pl, v, stamp, ts) && Sized(fs.rs.data, fs.size)
    && fs == Mounted(t, pl, v, fs.rs, fs.size, fs.lib)
  }

  /** A file is shadowed if a directory beside it has the same identifier but for the version. */
  ghost predicate Shadowed(t: Tree, q: Path)
    requires WellFormed(t) && q in t
  {
    q.Child? && IsFile(t, q) && exists k :: ShadowedBy(t, q, k)
  }

  ghost predicate ShadowedBy(t: Tree, q: Path, k: Text)
    requires WellFormed(t) && q in t && q.Child?
  {
    IsDirAt(t, Child(q.parent, k)) && Id(t, q) == Id(t, Child(q.parent, k)) + VERSION
  }

  ghost function IdsOfKids(t: Tree, p: Path): (ids: seq<Str>)
    requires WellFormed(t)
    ensures |ids| == |ById(t, p)|
  {
    ByIdDistinct(t, p);
    seq(|ById(t, p)|, i requires 0 <= i < |ById(t, p)| => KidId(t, p, ById(t, p)[i]))
  }

  ghost function KidId(t: Tree, p: Path, k: Text): Str
    requires WellFormed(t) && k in ById(t, p)
  {
    ByIdDistinct(t, p);
    Id(t, Child(p, k))
  }

  function KindsOf(t: Tree, p: Path, ks: seq<Text>): (dirs: seq<bool>)
    ensures |dirs| == |ks|
  {
    seq(|ks|, i requires 0 <= i < |ks| => IsDirAt(t, Child(p, ks[i])))
  }

  /** A record without System Use Area shows its cleaned identifier and is no link. */
  lemma PlainRecord(fs: FileSystem, rec: DirRecord)
    requires rec.sysUse == [] && !fs.joliet
    ensures fs.EffectiveName(rec) == rec.name && fs.LinkOf(rec) == None
  {
  }

  /** The record of child i of a directory, in the directory as read. */
  lemma KidRecord(t: Tree, pl: Plan, p: Path, i: nat)
    requires Plots(t, pl) && IsDirAt(t, p) && i < |ById(t, p)|
    ensures |Records(DirSlots(t, pl, p))| == |ById(t, p)| + 2 && Child(p, ById(t, p)[i]) in t
    ensures Records(DirSlots(t, pl, p))[i + 2] == RecOf(t, pl, Child(p, ById(t, p)[i]))
  {
    KidsInTree(t, pl, p);
    var slots, q := DirSlots(t, pl, p), Child(p, ById(t, p)[i]);
    assert slots[i + 2] == KidSlots(t, pl, p)[i] == SlotAt(t, pl, q, Id(t, q));
  }

  lemma DotRecords(t: Tree, pl: Plan, p: Path)
    requires Plots(t, pl) && IsDirAt(t, p)
    ensures var es := Records(DirSlots(t, pl, p)); |es| >= 2 && es[0].IsSpecial() && es[1].IsSpecial()
  {
  }

  lemma KidEntry(t: Tree, pl: Plan, fs: FileSystem, p: Path, i: nat)
    requires Plots(t, pl) && IsDirAt(t, p) && i < |ById(t, p)| && !fs.joliet
    ensures |Records(DirSlots(t, pl, p))| == |ById(t, p)| + 2
    ensures EntryIs(fs.Seen(), Records(DirSlots(t, pl, p)), IdsOfKids(t, p), KindsOf(t, p, ById(t, p)), i)
  {
    var k := ById(t, p)[i];
    KidRecord(t, pl, p, i);
    RecFacts(t, pl, Child(p, k));
    PlainRecord(fs, RecOf(t, pl, Child(p, k)));
    SiblingIds(t, p, k, k);
    CleanGoodId(Id(t, Child(p, k)), IsDirAt(t, Child(p, k)));
  }

  lemma KidsSorted(t: Tree, pl: Plan, fs: FileSystem, p: Path)
    requires Plots(t, pl) && IsDirAt(t, p) && !fs.joliet
    ensures Sorted(fs.Seen(), Records(DirSlots(t, pl, p)), IdsOfKids(t, p), KindsOf(t, p, ById(t, p)))
  {
    var es, ids, dirs := Records(DirSlots(t, pl, p)), IdsOfKids(t, p), KindsOf(t, p, ById(t, p));
    DotRecords(t, pl, p);
    KidCount(t, pl, p);
    forall i | 0 <= i < |ids| ensures EntryIs(fs.Seen(), es, ids, dirs, i) { KidEntry(t, pl, fs, p, i); }
    forall a, b | 0 <= a < b < |ids| ensures InOrder(ids, a, b) { KidsInOrderById(t, p, a, b); }
  }

  lemma KidCount(t: Tree, pl: Plan, p: Path)
    requires Plots(t, pl) && IsDirAt(t, p)
    ensures |Records(DirSlots(t, pl, p))| == |ById(t, p)| + 2
  {
    KidsInTree(t, pl, p);
  }

  lemma KidsInOrderById(t: Tree, p: Path, a: nat, b: nat)
    requires WellFormed(t) && a < b < |ById(t, p)|
    ensures InOrder(IdsOfKids(t, p), a, b)
  {
    ByIdIsOrder(t, p);
    assert ById(t, p)[a] in ById(t, p) && ById(t, p)[b] in ById(t, p);
  }

  lemma KidIndex(t: Tree, q: Path) returns (i: nat)
    requires WellFormed(t) && q in t && q.Child?
    ensures i < |ById(t, q.parent)| && q == Child(q.parent, ById(t, q.parent)[i])
    ensures IdsOfKids(t, q.parent)[i] == Id(t, q) && KindsOf(t, q.parent, ById(t, q.parent))[i] == IsDirAt(t, q)
  {
    ByIdDistinct(t, q.parent);
    assert q == Child(q.parent, q.name);
    var j :| 0 <= j < |ById(t, q.parent)| && ById(t, q.parent)[j] == q.name;
    i := j;
  }

  /** Where looking up an entry leads: to itself, or to the directory that shadows it. */
  ghost predicate LeadsTo(t: Tree, q: Path, r: Path)
    requires WellFormed(t) && q in t
  {
    if Shadowed(t, q) then r.Child? && r.parent == q.parent && ShadowedBy(t, q, r.name) else r == q
  }

  lemma ShadowIsHiding(t: Tree, q: Path, r: Path, i: nat, k: nat)
    requires WellFormed(t) && q in t && q.Child? && r in t && r.Child? && r.parent == q.parent && LeadsTo(t, q, r)
    requires i < |ById(t, q.parent)| && q == Child(q.parent, ById(t, q.parent)[i])
    requires k < |ById(t, q.parent)| && r == Child(q.parent, ById(t, q.parent)[k])
    ensures var ids, dirs := IdsOfKids(t, q.parent), KindsOf(t, q.parent, ById(t, q.parent));
            if k == i then forall j | 0 <= j < |ids| :: !Hides(ids, dirs, j, i) else Hides(ids, dirs, k, i)
  {
    var ids, dirs := IdsOfKids(t, q.parent), KindsOf(t, q.parent, ById(t, q.parent));
    if Shadowed(t, q) {
      assert ShadowedBy(t, q, r.name) && q != r;
    } else {
      ByIdDistinct(t, q.parent);
      DistinctAt(ById(t, q.parent), i, k);
      forall j | 0 <= j < |ids| ensures !Hides(ids, dirs, j, i) {
        if Hides(ids, dirs, j, i) { assert ShadowedBy(t, q, ById(t, q.parent)[j]); }
      }
    }
  }

  /** A directory lists its records, exactly unless it is over 16 MiB. */
  lemma DirListed(t: Tree, pl: Plan, v: Text, stamp: Stamp, ts: VolumeTime, fs: FileSystem, p: Path)
    requires Opens(t, pl, v, stamp, ts, fs) && IsDirAt(t, p)
    ensures RecOf(t, pl, p).IsDir()
    ensures Yields(fs.rs, fs.Dir(RecOf(t, pl, p)), Records(DirSlots(t, pl, p)), OpenDir(pl, p))
  {
    RecFacts(t, pl, p);
    DirReads(t, pl, v, stamp, ts, fs.rs.data, fs.size, p);
    ReadsTheDirectory(fs.rs, 2048, RecOf(t, pl, p), AllocCeiling(fs.size));
  }

  /** Looking up the cleaned identifier of entry i in its directory's records finds where it leads. */
  lemma KidFound(t: Tree, pl: Plan, fs: FileSystem, q: Path, r: Path)
    requires Plots(t, pl) && q in t && q.Child? && IsDirAt(t, q.parent) && LeadsTo(t, q, r) && !fs.joliet
    ensures r in t
    ensures Find(fs.Seen(), Records(DirSlots(t, pl, q.parent)), CleanName(Id(t, q))) == Some(RecOf(t, pl, r))
  {
    var p := q.parent;
    assert r in t && r.Child?
           && r.parent == p by { if Shadowed(t, q) { assert ShadowedBy(t, q, r.name) && r == Child(p, r.name); } }
    var i := KidIndex(t, q);
    var k := KidIndex(t, r);
    var es, ids, dirs := Records(DirSlots(t, pl, p)), IdsOfKids(t, p), KindsOf(t, p, ById(t, p));
    KidsSorted(t, pl, fs, p);
    ShadowIsHiding(t, q, r, i, k);
    SearchFinds(fs.Seen(), es, ids, dirs, i, k);
    KidRecord(t, pl, p, k);
  }

  lemma EnterYields(fs: FileSystem, cur: DirRecord, name: Text, es: seq<DirRecord>, c: DirRecord, here: bool)
    requires cur.IsDir() && Yields(fs.rs, fs.Dir(cur), es, here) && Find(fs.Seen(), es, name) == Some(c)
    ensures Yields(fs.rs, Enter(fs.Seen(), cur, name), c, here)
  {
  }

  /** One component: the cleaned identifier of an entry, looked up in its directory. */
  lemma EnterFinds(t: Tree, pl: Plan, v: Text, stamp: Stamp, ts: VolumeTime, fs: FileSystem, q: Path, r: Path)
    requires Opens(t, pl, v, stamp, ts, fs) && q in t && q.Child? && LeadsTo(t, q, r)
    ensures q.parent in t && r in t
    ensures Yields(fs.rs, Enter(fs.Seen(), RecOf(t, pl, q.parent), CleanName(Id(t, q))), RecOf(t, pl, r),
                   OpenDir(pl, q.parent))
  {
    assert Hangs(t, q);
    DirListed(t, pl, v, stamp, ts, fs, q.parent);
    KidFound(t, pl, fs, q, r);
    EnterYields(fs, RecOf(t, pl, q.parent), CleanName(Id(t, q)), Records(DirSlots(t, pl, q.parent)), RecOf(t, pl, r),
                OpenDir(pl, q.parent));
  }

  // ----- Whole paths -----

  /** The path of an entry as the reader spells it. */
  ghost function CleanParts(t: Tree, q: Path): seq<Text>
    requires WellFormed(t) && q in t
  {
    if q.Root? then []
    else
      assert Hangs(t, q);
      CleanParts(t, q.parent) + [CleanName(Id(t, q))]
  }

  lemma NoLink(t: Tree, pl: Plan, fs: FileSystem, p: Path)
    requires Plots(t, pl) && p in t && !fs.joliet
    ensures fs.Seen().link(RecOf(t, pl, p)) == None
  {
    RecFacts(t, pl, p);
    PlainRecord(fs, RecOf(t, pl, p));
  }

  lemma OneStep(v: View, cur: DirRecord, name: Text)
    requires Enter(v, cur, name).Ok? ==> v.link(Enter(v, cur, name).value) == None
    ensures Resolve(v, cur, [name], 0, true, 0) == Enter(v, cur, name)
  {
  }

  /** One more component, which is no link. */
  lemma OneMore(fs: FileSystem, parts: seq<Text>, cur: DirRecord, name: Text, c: DirRecord, way: bool, here: bool)
    requires Yields(fs.rs, Resolve(fs.Seen(), fs.root, parts, 0, true, 0), cur, way)
    requires Yields(fs.rs, Enter(fs.Seen(), cur, name), c, here) && fs.Seen().link(c) == None
    ensures Yields(fs.rs, Resolve(fs.Seen(), fs.root, parts + [name], 0, true, 0), c, way && here)
  {
    OneStep(fs.Seen(), cur, name);
    ResolveComposes(fs.Seen(), fs.root, parts, [name], true, 0);
  }

  /** Walking an entry's cleaned identifiers leads to it, or to the directory that shadows it. */
  lemma {:induction false} WalkFinds(t: Tree, pl: Plan, v: Text, stamp: Stamp, ts: VolumeTime, fs: FileSystem,
                                     q: Path, r: Path)
    requires Opens(t, pl, v, stamp, ts, fs) && q in t && LeadsTo(t, q, r)
    ensures r in t
    ensures Yields(fs.rs, Resolve(fs.Seen(), fs.root, CleanParts(t, q), 0, true, 0), RecOf(t, pl, r), OpenWay(pl, q))
    decreases q
  {
    if q.Child? {
      var p, name := q.parent, CleanName(Id(t, q));
      assert Hangs(t, q);
      WalkFinds(t, pl, v, stamp, ts, fs, p, p);
      EnterFinds(t, pl, v, stamp, ts, fs, q, r);
      NoLink(t, pl, fs, r);
      OneMore(fs, CleanParts(t, p), RecOf(t, pl, p), name, RecOf(t, pl, r), OpenWay(pl, p), OpenDir(pl, p));
    }
  }

  lemma CleanNameUsable(id: Str, isDir: bool)
    requires GoodId(id, isDir)
    ensures Component(CleanName(id))
  {
    CleanGoodId(id, isDir);
    if isDir {
      assert NameChar(id[0]);
    } else {
      var c := CleanName(id);
      assert forall i | 0 <= i < |c| :: c[i] == id[i];
      assert c[|c| - 1] != DOT;
    }
  }

  lemma {:induction false} CleanPartsUsable(t: Tree, q: Path)
    requires WellFormed(t) && q in t
    ensures forall c <- CleanParts(t, q) :: Component(c)
  {
    if q.Child? {
      assert Hangs(t, q);
      CleanPartsUsable(t, q.parent);
      assert q == Child(q.parent, q.name);
      SiblingIds(t, q.parent, q.name, q.name);
      CleanNameUsable(Id(t, q), IsDirAt(t, q));
    }
  }

  /** The absolute path of an entry as the reader spells it. */
  ghost function CleanPath(t: Tree, q: Path): Text
    requires WellFormed(t) && q in t
  {
    JoinPath(CleanParts(t, q))
  }

  lemma LookupLeads(t: Tree, pl: Plan, v: Text, stamp: Stamp, ts: VolumeTime, fs: FileSystem, q: Path, r: Path)
    requires Opens(t, pl, v, stamp, ts, fs) && q in t && LeadsTo(t, q, r)
    ensures r in t && Yields(fs.rs, fs.Lookup(CleanPath(t, q)), RecOf(t, pl, r), OpenWay(pl, q))
  {
    CleanPartsUsable(t, q);
    SplitUndoesJoin(CleanParts(t, q));
    WalkFinds(t, pl, v, stamp, ts, fs, q, r);
  }

  lemma DifferentRecords(t: Tree, pl: Plan, q: Path, r: Path)
    requires Plots(t, pl) && q in t && q.Child? && Shadowed(t, q) && LeadsTo(t, q, r)
    ensures r in t && RecOf(t, pl, q) != RecOf(t, pl, r) && RecOf(t, pl, r).IsDir() && IsDirAt(t, r)
  {
    assert ShadowedBy(t, q, r.name) && r == Child(q.parent, r.name);
    RecFacts(t, pl, q);
    RecFacts(t, pl, r);
  }

  lemma Leader(t: Tree, q: Path) returns (r: Path)
    requires WellFormed(t) && q in t
    ensures LeadsTo(t, q, r)
  {
    if Shadowed(t, q) {
      var k :| ShadowedBy(t, q, k);
      r := Child(q.parent, k);
    } else {
      r := q;
    }
  }

  /** Looking up the cleaned path of an entry finds it exactly if no directory above it is over 16 MiB and it is not a
      file that a directory shadows. Over a reader that may fail, what is found is still the entry or its shadow. */
  lemma FoundExactly(t: Tree, pl: Plan, v: Text, stamp: Stamp, ts: VolumeTime, fs: FileSystem, q: Path)
    returns (r: Path)
    requires Opens(t, pl, v, stamp, ts, fs) && q in t
    ensures LeadsTo(t, q, r) && r in t && Yields(fs.rs, fs.Lookup(CleanPath(t, q)), RecOf(t, pl, r), OpenWay(pl, q))
    ensures Honest(fs.rs) ==>
              (fs.Lookup(CleanPath(t, q)) == Ok(RecOf(t, pl, q)) <==> OpenWay(pl, q) && !Shadowed(t, q))
  {
    r := Leader(t, q);
    LookupLeads(t, pl, v, stamp, ts, fs, q, r);
    if Shadowed(t, q) { DifferentRecords(t, pl, q, r); }
  }

  /** The record of a file reads as its bytes, exactly unless it is over 1 GiB and the image size is not known. */
  lemma FileRecordReads(t: Tree, pl: Plan, v: Text, stamp: Stamp, ts: VolumeTime, fs: FileSystem, f: Path)
    requires Opens(t, pl, v, stamp, ts, fs) && IsFile(t, f)
    ensures Yields(fs.rs, ReadFileOver(fs.rs, 2048, RecOf(t, pl, f), AllocCeiling(fs.size)), t[f].data,
                   Acceptable(fs.size, |t[f].data|))
  {
    FileReads(t, pl, v, stamp, ts, fs.rs.data, fs.size, f);
    ReadsTheFile(fs.rs, 2048, RecOf(t, pl, f), AllocCeiling(fs.size));
  }

  /** Where a lookup leads, reading follows. */
  lemma FileAtLeads(fs: FileSystem, path: Text, rec: DirRecord, data: Str, way: bool, fits: bool)
    requires Yields(fs.rs, fs.Lookup(path), rec, way)
    requires Yields(fs.rs, ReadFileOver(fs.rs, fs.vol.blockSize, rec, AllocCeiling(fs.size)), data, fits)
    ensures Yields(fs.rs, fs.FileAt(path), data, way && fits)
  {
  }

  lemma DirectoriesUnread(fs: FileSystem, rec: DirRecord, data: Str)
    requires rec.IsDir()
    ensures Yields(fs.rs, ReadFileOver(fs.rs, fs.vol.blockSize, rec, AllocCeiling(fs.size)), data, false)
  {
  }

  /** Reading a file under its cleaned path gives its bytes and nothing else, over any reader; over an honest one
      exactly if no directory above it is over 16 MiB, it is at most 1 GiB or the image size is known, and it is not
      shadowed. */
  lemma FilesReadBack(t: Tree, pl: Plan, v: Text, stamp: Stamp, ts: VolumeTime, fs: FileSystem, f: Path)
    requires Opens(t, pl, v, stamp, ts, fs) && IsFile(t, f)
    ensures Yields(fs.rs, fs.FileAt(CleanPath(t, f)), t[f].data,
                   OpenWay(pl, f) && Acceptable(fs.size, |t[f].data|) && !Shadowed(t, f))
  {
    var r := FoundExactly(t, pl, v, stamp, ts, fs, f);
    if Shadowed(t, f) {
      DifferentRecords(t, pl, f, r);
      DirectoriesUnread(fs, RecOf(t, pl, r), t[f].data);
      FileAtLeads(fs, CleanPath(t, f), RecOf(t, pl, r), t[f].data, OpenWay(pl, f), false);
    } else {
      FileRecordReads(t, pl, v, stamp, ts, fs, f);
      FileAtLeads(fs, CleanPath(t, f), RecOf(t, pl, f), t[f].data, OpenWay(pl, f), Acceptable(fs.size, |t[f].data|));
    }
  }

  // ----- Listing -----

  /** What a directory lists: exactly its children, in identifier order, under their cleaned identifiers. */
  ghost function Listings(t: Tree, pl: Plan, p: Path): (ls: seq<Listed>)
    requires Plots(t, pl) && IsDirAt(t, p)
    ensures |ls| == |ById(t, p)|
  {
    KidsInTree(t, pl, p);
    seq(|ById(t, p)|, i requires 0 <= i < |ById(t, p)| => ListingOf(t, pl, Child(p, pl.s.kids[p][i])))
  }

  ghost function ListingOf(t: Tree, pl: Plan, q: Path): Listed
    requires Plots(t, pl) && q in t && q.Child?
  {
    Listed(pl.lba[q], CleanName(Id(t, q)), if IsDirAt(t, q) then 2 else 0)
  }

  ghost predicate ListsAs(one: DirRecord -> seq<Listed>, es: seq<DirRecord>, ls: seq<Listed>, i: nat)
    requires 2 <= i < |es| && |es| == |ls| + 2
  {
    one(es[i]) == [ls[i - 2]]
  }

  /** The entries `es` are two special ones and then those listed as `ls`. */
  ghost predicate AllListed(one: DirRecord -> seq<Listed>, es: seq<DirRecord>, ls: seq<Listed>) {
    && |es| == |ls| + 2 && one(es[0]) == one(es[1]) == []
    && forall i {:trigger ListsAs(one, es, ls, i)} | 2 <= i < |es| :: ListsAs(one, es, ls, i)
  }

  lemma ListNext(one: DirRecord -> seq<Listed>, es: seq<DirRecord>, i: nat)
    requires i < |es|
    ensures ListEach(one, es[..i + 1]) == ListEach(one, es[..i]) + one(es[i])
  {
    assert es[..i + 1][..i] == es[..i];
  }

  /** The first m of the entries list as the first m - 2 children. */
  lemma {:induction false} ListFrom(one: DirRecord -> seq<Listed>, es: seq<DirRecord>, ls: seq<Listed>, m: nat)
    requires 2 <= m <= |es| && AllListed(one, es, ls)
    ensures ListEach(one, es[..m]) == ls[..m - 2]
  {
    if m == 2 {
      ListNext(one, es, 0);
      ListNext(one, es, 1);
      assert es[..0] == [];
    } else {
      ListFrom(one, es, ls, m - 1);
      ListNext(one, es, m - 1);
      assert ListsAs(one, es, ls, m - 1);
      assert ls[..m - 2] == ls[..m - 3] + [ls[m - 3]];
    }
  }

  lemma ListWhole(one: DirRecord -> seq<Listed>, es: seq<DirRecord>, ls: seq<Listed>)
    requires AllListed(one, es, ls)
    ensures ListEach(one, es) == ls
  {
    ListFrom(one, es, ls, |es|);
    assert es[..|es|] == es && ls[..|es| - 2] == ls;
  }

  lemma KidListing(t: Tree, pl: Plan, fs: FileSystem, q: Path)
    requires Plots(t, pl) && q in t && q.Child? && !fs.joliet
    ensures fs.ListOne(RecOf(t, pl, q)) == [ListingOf(t, pl, q)]
  {
    assert q == Child(q.parent, q.name);
    RecFacts(t, pl, q);
    PlainRecord(fs, RecOf(t, pl, q));
    SiblingIds(t, q.parent, q.name, q.name);
    CleanGoodId(Id(t, q), IsDirAt(t, q));
  }

  lemma ListsKid(t: Tree, pl: Plan, fs: FileSystem, p: Path, i: nat)
    requires Plots(t, pl) && IsDirAt(t, p) && 2 <= i < |ById(t, p)| + 2 && !fs.joliet
    ensures |Records(DirSlots(t, pl, p))| == |ById(t, p)| + 2
    ensures ListsAs(fs.Lister(), Records(DirSlots(t, pl, p)), Listings(t, pl, p), i)
  {
    KidRecord(t, pl, p, i - 2);
    ListingAt(t, pl, p, i - 2);
    KidListing(t, pl, fs, Child(p, ById(t, p)[i - 2]));
    ListsIt(fs, Records(DirSlots(t, pl, p)), Listings(t, pl, p), i);
  }

  lemma ListingAt(t: Tree, pl: Plan, p: Path, k: nat)
    requires Plots(t, pl) && IsDirAt(t, p) && k < |ById(t, p)|
    ensures Child(p, ById(t, p)[k]) in t && Listings(t, pl, p)[k] == ListingOf(t, pl, Child(p, ById(t, p)[k]))
  {
    KidsInTree(t, pl, p);
  }

  lemma ListsIt(fs: FileSystem, es: seq<DirRecord>, ls: seq<Listed>, i: nat)
    requires 2 <= i < |es| && |es| == |ls| + 2 && fs.ListOne(es[i]) == [ls[i - 2]]
    ensures ListsAs(fs.Lister(), es, ls, i)
  {
  }

  /** Listing a directory under its cleaned path gives exactly its children, over any reader; over an honest one exactly
      if neither it nor a directory above it is over 16 MiB. */
  lemma DirectoriesListBack(t: Tree, pl: Plan, v: Text, stamp: Stamp, ts: VolumeTime, fs: FileSystem, p: Path)
    requires Opens(t, pl, v, stamp, ts, fs) && IsDirAt(t, p)
    ensures Yields(fs.rs, fs.ListingAt(CleanPath(t, p)), Listings(t, pl, p), OpenWay(pl, p) && OpenDir(pl, p))
  {
    LookupLeads(t, pl, v, stamp, ts, fs, p, p);
    DirListed(t, pl, v, stamp, ts, fs, p);
    KidsListed(t, pl, fs, p);
  }

  lemma DotsListed(fs: FileSystem, es: seq<DirRecord>)
    requires |es| >= 2 && es[0].IsSpecial() && es[1].IsSpecial()
    ensures fs.Lister()(es[0]) == fs.Lister()(es[1]) == []
  {
  }

  /** Each child, in identifier order: the sector of its extent, its cleaned identifier, and 2 if it is a directory. */
  lemma ListingMeans(t: Tree, pl: Plan, p: Path, i: nat)
    requires Plots(t, pl) && IsDirAt(t, p) && i < |ById(t, p)|
    ensures var q := Child(p, ById(t, p)[i]);
            && q in t && |Listings(t, pl, p)| == |ById(t, p)|
            && Listings(t, pl, p)[i] == Listed(pl.lba[q], CleanName(Id(t, q)), if t[q] == DirEntry then 2 else 0)
  {
    ListingAt(t, pl, p, i);
  }

  lemma KidsListedEach(t: Tree, pl: Plan, fs: FileSystem, p: Path)
    requires Plots(t, pl) && IsDirAt(t, p) && !fs.joliet
    ensures AllListed(fs.Lister(), Records(DirSlots(t, pl, p)), Listings(t, pl, p))
  {
    var es, ls := Records(DirSlots(t, pl, p)), Listings(t, pl, p);
    KidCount(t, pl, p);
    DotRecords(t, pl, p);
    DotsListed(fs, es);
    forall i | 2 <= i < |es| ensures ListsAs(fs.Lister(), es, ls, i) { ListsKid(t, pl, fs, p, i); }
  }

  lemma KidsListed(t: Tree, pl: Plan, fs: FileSystem, p: Path)
    requires Plots(t, pl) && IsDirAt(t, p) && !fs.joliet
    ensures ListEach(fs.Lister(), Records(DirSlots(t, pl, p))) == Listings(t, pl, p)
  {
    var es, ls := Records(DirSlots(t, pl, p)), Listings(t, pl, p);
    KidsListedEach(t, pl, fs, p);
    ListWhole(fs.Lister(), es, ls);
  }

  // ----- When nothing is shadowed -----

  /** No two siblings have the same cleaned identifier. */
  ghost predicate CleanDistinct(t: Tree)
    requires WellFormed(t)
  {
    forall q, k {:trigger SameClean(t, q, k)} | q in t && q.Child? && Child(q.parent, k) in t
           && SameClean(t, q, k) :: k == q.name
  }

  ghost predicate SameClean(t: Tree, q: Path, k: Text)
    requires WellFormed(t) && q in t && q.Child? && Child(q.parent, k) in t
  {
    CleanName(Id(t, Child(q.parent, k))) == CleanName(Id(t, q))
  }

  /** An entry is shadowed exactly if it is a file and a directory beside it has the same cleaned identifier. */
  lemma ShadowedMeans(t: Tree, q: Path)
    requires WellFormed(t) && q in t && q.Child?
    ensures Shadowed(t, q) <==> IsFile(t, q) && exists k :: IsDirAt(t, Child(q.parent, k)) && SameClean(t, q, k)
  {
    assert q == Child(q.parent, q.name);
    forall k | IsFile(t, q) && IsDirAt(t, Child(q.parent, k)) ensures ShadowedBy(t, q, k) <==> SameClean(t, q, k) {
      SiblingIds(t, q.parent, q.name, k);
      SiblingIds(t, q.parent, k, k);
      CleanCollision(Id(t, Child(q.parent, k)), true, Id(t, q), false);
    }
  }

  /** With distinct cleaned identifiers every path leads to its entry. */
  lemma NothingShadowed(t: Tree, q: Path)
    requires WellFormed(t) && CleanDistinct(t) && q in t
    ensures !Shadowed(t, q)
  {
    if q.Child? {
      ShadowedMeans(t, q);
      assert q == Child(q.parent, q.name);
    }
  }

  // ----- A tree with a shadowed file -----

  /** A directory "F" and a file "f", both at the root. */
  function Clash(data: Str): Tree {
    map[Root := DirEntry, Child(Root, UPPER) := DirEntry, Child(Root, LOWER) := FileEntry(data)]
  }

  lemma ClashNames(data: Str)
    ensures var t := Clash(data);
            WellFormed(t) && Names(t, Root) == {UPPER, LOWER} && Subdirs(t, Root) == {UPPER}
            && ByName(t, Root) == [UPPER, LOWER]
  {
    var t := Clash(data);
    forall p | p in t && p.Child? ensures Hangs(t, p) {}
    var names := Names(t, Root);
    assert Less(UPPER, LOWER);
    ByNameIsOrder(t, Root);
    OrderUnique(ByName(t, Root), [UPPER, LOWER], names, SelfKey(names));
  }

  lemma ClashIds(data: Str)
    ensures Ids(Clash(data), Root) == map[UPPER := UPPER, LOWER := UPPER + VERSION]
  {
    ClashNames(data);
    CleanCollisionWitness();
    var names: seq<Text>, none: map<Text, Str>, first: map<Text, Str> := [UPPER, LOWER], map[], map[UPPER := UPPER];
    assert UPPER in first && first[UPPER] == UPPER;
    assert none.Values == {} && none[UPPER := UPPER] == first && first.Values == {UPPER};
    assert Assign(names, 2, {UPPER}, first[LOWER := UPPER + VERSION]) == first[LOWER := UPPER + VERSION];
    assert Assign(names, 1, {UPPER}, first) == first[LOWER := UPPER + VERSION];
    assert Assign(names, 0, {UPPER}, none) == Assign(names, 1, {UPPER}, first);
  }

  /** Shadowing does occur. */
  lemma ShadowedWitness(data: Str)
    ensures WellFormed(Clash(data)) && Child(Root, LOWER) in Clash(data) && Shadowed(Clash(data), Child(Root, LOWER))
  {
    ClashNames(data);
    ClashIds(data);
    assert ShadowedBy(Clash(data), Child(Root, LOWER), UPPER);
  }

  // ----- By raw identifier -----

  function FirstRaw(es: seq<DirRecord>, id: Str, i: nat): Option<DirRecord>
    decreases |es| - i
  {
    if i >= |es| then None else if es[i].rawName == id then Some(es[i]) else FirstRaw(es, id, i + 1)
  }

  function EnterRaw(fs: FileSystem, cur: DirRecord, id: Str): Result<DirRecord> {
    match fs.Dir(cur)
    case Err(e) => Err(e)
    case Ok(es) => match FirstRaw(es, id, 0) case None => Err(NotFound) case Some(e) => Ok(e)
  }

  /** Following identifiers exactly as they stand on disk. */
  function WalkRaw(fs: FileSystem, ids: seq<Str>): Result<DirRecord> {
    if ids == [] then Ok(fs.root)
    else match WalkRaw(fs, ids[..|ids| - 1])
      case Err(e) => Err(e)
      case Ok(dir) => EnterRaw(fs, dir, ids[|ids| - 1])
  }

  lemma {:induction false} FirstRawAt(es: seq<DirRecord>, id: Str, i: nat, k: nat)
    requires i <= k < |es| && es[k].rawName == id && forall j | i <= j < k :: es[j].rawName != id
    ensures FirstRaw(es, id, i) == Some(es[k])
    decreases k - i
  {
    if i < k { FirstRawAt(es, id, i + 1, k); }
  }

  /** The entries `es` are two special ones and then one under each of the sorted identifiers. */
  ghost predicate RawSorted(es: seq<DirRecord>, ids: seq<Str>) {
    && |es| == |ids| + 2 && es[0].IsSpecial() && es[1].IsSpecial()
    && (forall k {:trigger RawIs(es, ids, k)} | 0 <= k < |ids| :: RawIs(es, ids, k))
    && (forall a, b {:trigger InOrder(ids, a, b)} | 0 <= a < b < |ids| :: InOrder(ids, a, b))
  }

  ghost predicate RawIs(es: seq<DirRecord>, ids: seq<Str>, k: nat)
    requires k < |ids| && |es| == |ids| + 2
  {
    es[k + 2].rawName == ids[k] && !IsSpecialName(ids[k])
  }

  lemma RawSearch(es: seq<DirRecord>, ids: seq<Str>, i: nat)
    requires RawSorted(es, ids) && i < |ids|
    ensures FirstRaw(es, ids[i], 0) == Some(es[i + 2])
  {
    assert RawIs(es, ids, i);
    forall j | 0 <= j < i + 2 ensures es[j].rawName != ids[i] {
      if j >= 2 {
        assert RawIs(es, ids, j - 2) && InOrder(ids, j - 2, i);
        LessIrreflexive(ids[i]);
      }
    }
    FirstRawAt(es, ids[i], 0, i + 2);
  }

  lemma RawKid(t: Tree, pl: Plan, p: Path, i: nat)
    requires Plots(t, pl) && IsDirAt(t, p) && i < |ById(t, p)|
    ensures |Records(DirSlots(t, pl, p))| == |ById(t, p)| + 2 && RawIs(Records(DirSlots(t, pl, p)), IdsOfKids(t, p), i)
  {
    var k := ById(t, p)[i];
    KidRecord(t, pl, p, i);
    RecFacts(t, pl, Child(p, k));
    SiblingIds(t, p, k, k);
    CleanGoodId(Id(t, Child(p, k)), IsDirAt(t, Child(p, k)));
  }

  lemma RawKids(t: Tree, pl: Plan, p: Path)
    requires Plots(t, pl) && IsDirAt(t, p)
    ensures RawSorted(Records(DirSlots(t, pl, p)), IdsOfKids(t, p))
  {
    DotRecords(t, pl, p);
    KidCount(t, pl, p);
    forall i | 0 <= i < |IdsOfKids(t, p)|
      ensures RawIs(Records(DirSlots(t, pl, p)), IdsOfKids(t, p), i) { RawKid(t, pl, p, i); }
    forall a, b | 0 <= a < b < |IdsOfKids(t, p)| ensures InOrder(IdsOfKids(t, p), a, b) { KidsInOrderById(t, p, a, b); }
  }

  lemma RawFound(t: Tree, pl: Plan, q: Path)
    requires Plots(t, pl) && q in t && q.Child? && IsDirAt(t, q.parent)
    ensures FirstRaw(Records(DirSlots(t, pl, q.parent)), Id(t, q), 0) == Some(RecOf(t, pl, q))
  {
    var i := KidIndex(t, q);
    KidRecord(t, pl, q.parent, i);
    RawKids(t, pl, q.parent);
    RawSearch(Records(DirSlots(t, pl, q.parent)), IdsOfKids(t, q.parent), i);
  }

  lemma RawStep(fs: FileSystem, ids: seq<Str>, cur: DirRecord, id: Str, es: seq<DirRecord>, c: DirRecord, way: bool,
                here: bool)
    requires Yields(fs.rs, WalkRaw(fs, ids), cur, way) && Yields(fs.rs, fs.Dir(cur), es, here)
    requires FirstRaw(es, id, 0) == Some(c)
    ensures Yields(fs.rs, WalkRaw(fs, ids + [id]), c, way && here)
  {
    assert (ids + [id])[..|ids|] == ids;
  }

  /** Every entry, shadowed or not, is reached by its identifiers as they stand on disk, exactly if no directory above
      it is over 16 MiB. */
  lemma {:induction false} RawWalkFinds(t: Tree, pl: Plan, v: Text, stamp: Stamp, ts: VolumeTime, fs: FileSystem,
                                        q: Path)
    requires Opens(t, pl, v, stamp, ts, fs) && q in t
    ensures Yields(fs.rs, WalkRaw(fs, IdPath(t, q)), RecOf(t, pl, q), OpenWay(pl, q))
    decreases q
  {
    if q.Child? {
      assert Hangs(t, q);
      var p := q.parent;
      RawWalkFinds(t, pl, v, stamp, ts, fs, p);
      DirListed(t, pl, v, stamp, ts, fs, p);
      RawFound(t, pl, q);
      RawStep(fs, IdPath(t, p), RecOf(t, pl, p), Id(t, q), Records(DirSlots(t, pl, p)), RecOf(t, pl, q), OpenWay(pl, p),
              OpenDir(pl, p));
    }
  }

  // ----- Any path at all -----

  lemma OrdinaryAt(es: seq<DirRecord>, e: DirRecord) returns (i: nat)
    requires |es| >= 2 && es[0].IsSpecial() && es[1].IsSpecial() && e in es && !e.IsSpecial()
    ensures i + 2 < |es| && es[i + 2] == e
  {
    var j :| 0 <= j < |es| && es[j] == e;
    i := j - 2;
  }

  lemma RecordIsEntry(t: Tree, pl: Plan, p: Path, e: DirRecord) returns (q: Path)
    requires Plots(t, pl) && IsDirAt(t, p) && e in Records(DirSlots(t, pl, p)) && !e.IsSpecial()
    ensures q in t && e == RecOf(t, pl, q)
  {
    DotRecords(t, pl, p);
    KidCount(t, pl, p);
    var i := OrdinaryAt(Records(DirSlots(t, pl, p)), e);
    KidRecord(t, pl, p, i);
    q := Child(p, ById(t, p)[i]);
  }

  /** Whatever a directory of the image lists, special entries aside, is an entry of the tree. */
  lemma ListedIsEntry(t: Tree, pl: Plan, v: Text, stamp: Stamp, ts: VolumeTime, fs: FileSystem, p: Path, e: DirRecord)
    returns (q: Path)
    requires Opens(t, pl, v, stamp, ts, fs) && p in t && IsEntryOf(fs.Seen(), RecOf(t, pl, p), e)
    ensures q in t && e == RecOf(t, pl, q)
  {
    RecFacts(t, pl, p);
    DirListed(t, pl, v, stamp, ts, fs, p);
    q := RecordIsEntry(t, pl, p, e);
  }

  lemma {:induction false} WalkStays(t: Tree, pl: Plan, v: Text, stamp: Stamp, ts: VolumeTime, fs: FileSystem,
                                     walk: seq<DirRecord>, k: nat)
    returns (q: Path)
    requires Opens(t, pl, v, stamp, ts, fs) && IsWalk(fs.Seen(), fs.root, walk) && k < |walk|
    ensures q in t && walk[k] == RecOf(t, pl, q)
  {
    if k == 0 { return Root; }
    var p := WalkStays(t, pl, v, stamp, ts, fs, walk, k - 1);
    assert IsEntryOf(fs.Seen(), walk[k - 1], walk[k - 1 + 1]);
    q := ListedIsEntry(t, pl, v, stamp, ts, fs, p, walk[k]);
  }

  lemma LookupWalk(fs: FileSystem, path: Text) returns (walk: seq<DirRecord>)
    requires fs.Lookup(path).Ok?
    ensures IsWalk(fs.Seen(), fs.root, walk) && walk[|walk| - 1] == fs.Lookup(path).value
  {
    walk := ResolvedReached(fs.Seen(), fs.root, SplitPath(path), true, 0);
  }

  /** No path, however spelt, and no reader, however it fails, leads outside the tree. */
  lemma LookupStays(t: Tree, pl: Plan, v: Text, stamp: Stamp, ts: VolumeTime, fs: FileSystem, path: Text)
    returns (q: Path)
    requires Opens(t, pl, v, stamp, ts, fs) && fs.Lookup(path).Ok?
    ensures q in t && fs.Lookup(path) == Ok(RecOf(t, pl, q))
  {
    var walk := LookupWalk(fs, path);
    q := WalkStays(t, pl, v, stamp, ts, fs, walk, |walk| - 1);
  }

  /** Whatever path a file is read under, and however the reader fails, the bytes returned are those of one file. */
  lemma ReadsOnlyFiles(t: Tree, pl: Plan, v: Text, stamp: Stamp, ts: VolumeTime, fs: FileSystem, path: Text)
    returns (f: Path)
    requires Opens(t, pl, v, stamp, ts, fs) && fs.FileAt(path).Ok?
    ensures IsFile(t, f) && fs.Lookup(path) == Ok(RecOf(t, pl, f)) && fs.FileAt(path).value == t[f].data
  {
    f := LookupStays(t, pl, v, stamp, ts, fs, path);
    RecFacts(t, pl, f);
    FileRecordReads(t, pl, v, stamp, ts, fs, f);
  }
}
