/** Mastering a tree and opening what was written. */
module EndToEnd {
  import opened Bytes
  import opened Readers
  import opened Trees
  import opened Paths
  import opened Plans
  import opened Capacity
  import opened Builders
  import opened Placing
  import opened Layouts
  import opened DirRecords
  import opened DirWriters
  import opened Volumes
  import opened FileSystems
  import opened Mastering
  import opened RoundTrips
  import opened Lookups
  import opened PlainNames

  /** Some way of reading back what a device holds; it may fail, but not lie. */
  type Backing = Str -> Reader

  ghost predicate Faithful(backing: Backing) {
    forall data :: Conforms(backing(data)) && backing(data).data == data
  }

  ghost predicate NeverFails(backing: Backing) { forall data :: Honest(backing(data)) }

  /** On a device that takes whole writes mastering succeeds, and so does opening what the device then holds, its size
      known or not, over a reader that does not fail. Over any reader, what is opened is the filesystem of the builder's
      tree: everything in Lookups holds of it. */
  method MasterAndOpen(b: Builder, dev: Device, backing: Backing, ts: VolumeTime, lib: Library, known: bool)
    returns (r: Option<FS>, ghost pl: Plan)
    requires b.Valid() && b.Unassigned() && Fits(b.entries) && Faithful(backing)
    modifies dev, b`pathTableMLBA, b.repr`id, b.repr`parent, b.repr`dirIndex, b.repr`extentLBA, b.repr`extentLen
    ensures Willing(dev) && NeverFails(backing) ==> r.Some?
    ensures IsPlan(b.entries, pl)
    ensures r.Some? ==>
              && Opens(b.entries, pl, b.volumeID, b.stamp, ts, r.value.Value())
              && r.value.rs == backing(dev.data) && r.value.size == (if known then |dev.data| else -1)
  {
    var ok;
    ok, pl := WriteTo(b, dev, ts);
    if !ok { return None, pl; }
    var size := if known then |dev.data| else -1;
    var rs := backing(dev.data);
    OpensAsMounted(b.entries, pl, b.volumeID, b.stamp, ts, rs, size, lib);
    var fs := Open(rs, size, lib);
    r := if fs.Ok? then Some(fs.value) else None;
  }

  lemma SmallLength(t: Tree, pl: Plan, q: Path)
    requires Plots(t, pl) && Small(t) && q in t
    ensures pl.s.len[q] <= MAX_FILE && (IsDirAt(t, q) ==> OpenDir(pl, q))
  {
    SmallTreesFit(t);
    if IsDirAt(t, q) { DirSurvey(t, pl.s, q); } else { FileShare(t, pl.s, q); }
  }

  lemma {:induction false} SmallWayOpen(t: Tree, pl: Plan, q: Path)
    requires Plots(t, pl) && Small(t) && q in t
    ensures OpenWay(pl, q)
  {
    if q.Child? {
      AboveInTree(t, q.parent, q);
      SmallLength(t, pl, q.parent);
      SmallWayOpen(t, pl, q.parent);
    }
  }

  lemma SmallReads(t: Tree, pl: Plan, v: Text, stamp: Stamp, ts: VolumeTime, fs: FileSystem, f: Path)
    requires Opens(t, pl, v, stamp, ts, fs) && Small(t) && IsFile(t, f) && !Shadowed(t, f)
    ensures Yields(fs.rs, fs.FileAt(CleanPath(t, f)), t[f].data, true)
  {
    SmallWayOpen(t, pl, f);
    FilesReadBack(t, pl, v, stamp, ts, fs, f);
  }

  /** A whole session: add a file to whatever has been built so far, master it, open the result, and read the file under
      the path the reader shows it at. Nothing but the bytes given can come back; and unless AddFile, device or reader
      fail, they do. */
  method StoreAndLoad(b: Builder, path: Text, data: Str, dev: Device, backing: Backing, ts: VolumeTime, lib: Library,
                      known: bool, shown: Text)
    returns (r: Result<Str>)
    requires b.Valid() && b.Unassigned() && Small(b.entries) && Faithful(backing)
    requires |b.entries| + |SplitPath(path)| <= MAX_ENTRIES && |data| <= MAX_FILE
    requires var p, u := PathOf(SplitPath(path)), AddFileTo(b.entries, PathOf(SplitPath(path)), data);
             u.Ok? ==> WellFormed(u.value) && p in u.value && !Shadowed(u.value, p) && shown == CleanPath(u.value, p)
    modifies dev, b, b.repr
    ensures r.Ok? ==> r.value == data
    ensures AddFileTo(old(b.entries), PathOf(SplitPath(path)), data).Err? ==> r.Err?
    ensures AddFileTo(old(b.entries), PathOf(SplitPath(path)), data).Ok? && Willing(dev) && NeverFails(backing)
            ==> r.Ok?
  {
    ghost var p := PathOf(SplitPath(path));
    StaysSmall(b.entries, path, data);
    var added := b.AddFile(path, data);
    if added.Err? { return Err(added.error); }
    r := MasterAndLoad(b, dev, backing, ts, lib, known, p, shown);
  }

  /** The same where every name is a level 1 identifier already: the file is read under the path it was added with. */
  method StoreAndLoadSamePath(b: Builder, path: Text, data: Str, dev: Device, backing: Backing, ts: VolumeTime,
                              lib: Library, known: bool)
    returns (r: Result<Str>)
    requires b.Valid() && b.Unassigned() && Small(b.entries) && Faithful(backing)
    requires |b.entries| + |SplitPath(path)| <= MAX_ENTRIES && |data| <= MAX_FILE
    requires AllLevelOne(b.entries) && PathLevelOne(SplitPath(path))
    modifies dev, b, b.repr
    ensures r.Ok? ==> r.value == data
    ensures AddFileTo(old(b.entries), PathOf(SplitPath(path)), data).Err? ==> r.Err?
    ensures AddFileTo(old(b.entries), PathOf(SplitPath(path)), data).Ok? && Willing(dev) && NeverFails(backing)
            ==> r.Ok?
  {
    ghost var p := PathOf(SplitPath(path));
    StaysSmall(b.entries, path, data);
    StaysLevelOne(b.entries, path, data);
    var added := b.AddFile(path, data);
    if added.Err? { return Err(added.error); }
    r := MasterAndLoadSamePath(b, dev, backing, ts, lib, known, p, path);
  }

  lemma StaysSmall(t: Tree, path: Text, data: Str)
    requires Small(t) && |t| + |SplitPath(path)| <= MAX_ENTRIES && |data| <= MAX_FILE
    ensures AddFileTo(t, PathOf(SplitPath(path)), data).Ok?
            ==> Small(AddFileTo(t, PathOf(SplitPath(path)), data).value)
  {
    SplitComponentsUsable(path);
    assert forall i | 0 <= i < |SplitPath(path)| :: SplitPath(path)[i] in SplitPath(path);
    PartsGiven(SplitPath(path));
    LevelOfParts(SplitPath(path));
    if AddFileTo(t, PathOf(SplitPath(path)), data).Ok? { AddFileKeepsSmall(t, PathOf(SplitPath(path)), data); }
  }

  lemma {:induction false} LevelOfParts(parts: seq<Text>)
    ensures Level(PathOf(parts)) == |parts|
  {
    if parts != [] { LevelOfParts(parts[..|parts| - 1]); }
  }

  lemma StaysLevelOne(t: Tree, path: Text, data: Str)
    requires AllLevelOne(t) && PathLevelOne(SplitPath(path))
    ensures AddFileTo(t, PathOf(SplitPath(path)), data).Ok?
            ==> AllLevelOne(AddFileTo(t, PathOf(SplitPath(path)), data).value)
  {
    if AddFileTo(t, PathOf(SplitPath(path)), data).Ok? { AddFileKeepsLevelOne(t, SplitPath(path), data); }
  }

  /** Master a small tree, open the result, and read a file under its cleaned path. */
  method MasterAndLoad(b: Builder, dev: Device, backing: Backing, ts: VolumeTime, lib: Library, known: bool,
                       ghost f: Path, shown: Text)
    returns (r: Result<Str>)
    requires b.Valid() && b.Unassigned() && Small(b.entries) && Faithful(backing)
    requires IsFile(b.entries, f) && !Shadowed(b.entries, f) && shown == CleanPath(b.entries, f)
    modifies dev, b`pathTableMLBA, b.repr`id, b.repr`parent, b.repr`dirIndex, b.repr`extentLBA, b.repr`extentLen
    ensures r.Ok? ==> r.value == b.entries[f].data
    ensures Willing(dev) && NeverFails(backing) ==> r.Ok?
  {
    ghost var t := b.entries;
    SmallTreesFit(t);
    var fs, pl := MasterAndOpen(b, dev, backing, ts, lib, known);
    if fs.None? { return Err(IO); }
    SmallReads(t, pl, b.volumeID, b.stamp, ts, fs.value.Value(), f);
    r := fs.value.ReadFileAt(shown);
  }

  /** The same under any path that leads to the file, where names are level 1 identifiers. */
  method MasterAndLoadSamePath(b: Builder, dev: Device, backing: Backing, ts: VolumeTime, lib: Library, known: bool,
                               ghost f: Path, path: Text)
    returns (r: Result<Str>)
    requires b.Valid() && b.Unassigned() && Small(b.entries) && Faithful(backing) && AllLevelOne(b.entries)
    requires IsFile(b.entries, f) && f == PathOf(SplitPath(path))
    modifies dev, b`pathTableMLBA, b.repr`id, b.repr`parent, b.repr`dirIndex, b.repr`extentLBA, b.repr`extentLen
    ensures r.Ok? ==> r.value == b.entries[f].data
    ensures Willing(dev) && NeverFails(backing) ==> r.Ok?
  {
    ghost var t := b.entries;
    SmallTreesFit(t);
    var fs, pl := MasterAndOpen(b, dev, backing, ts, lib, known);
    if fs.None? { return Err(IO); }
    SmallReadsSamePath(t, pl, b.volumeID, b.stamp, ts, fs.value.Value(), path);
    r := fs.value.ReadFileAt(path);
  }

  lemma SmallReadsSamePath(t: Tree, pl: Plan, v: Text, stamp: Stamp, ts: VolumeTime, fs: FileSystem, path: Text)
    requires Opens(t, pl, v, stamp, ts, fs) && Small(t) && AllLevelOne(t) && IsFile(t, PathOf(SplitPath(path)))
    ensures Yields(fs.rs, fs.FileAt(path), t[PathOf(SplitPath(path))].data, true)
  {
    SmallWayOpen(t, pl, PathOf(SplitPath(path)));
    SamePathReadsBack(t, pl, v, stamp, ts, fs, path);
  }
}
