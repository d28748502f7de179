/** Trees whose names are level 1 identifiers already: every path reads back as it was given. */
module PlainNames {
  import opened Bytes
  import opened Identifiers
  import opened DirRecords
  import opened Paths
  import opened Trees
  import opened Siblings
  import opened Layouts
  import opened Volumes
  import opened Readers
  import opened FileSystems
  import opened RoundTrips
  import opened Lookups

  ghost predicate AllLevelOne(t: Tree) {
    WellFormed(t) && forall q {:trigger NamedWell(t, q)} | q in t && q.Child? :: NamedWell(t, q)
  }

  ghost predicate NamedWell(t: Tree, q: Path)
    requires q in t && q.Child?
  {
    LevelOne(q.name, t[q] == DirEntry)
  }

  // ----- Identifiers -----

  /** Each child in name order keeps its name, for no earlier one has taken it. */
  lemma {:induction false} PickKeeps(t: Tree, p: Path, i: nat)
    requires AllLevelOne(t) && IsDirAt(t, p) && i < |ByName(t, p)|
    ensures var q := Child(p, ByName(t, p)[i]);
            q in t && Id(t, q) == IsoIdentifier(q.name, IsDirAt(t, q))
    decreases i
  {
    var s, ids := ByName(t, p), AllIds(t);
    var q := Child(p, s[i]);
    ByNameDistinct(t, p);
    assert s[i] in s && s[i] in Names(t, p);
    AllIdsPicked(t, p);
    assert PickedAt(t, ids, p, s, i);
    PickMeans(s[i], IsDirAt(t, q), IdsTaken(ids, p, s[..i]));
    forall k | k in s[..i] ensures ids[Child(p, k)] != IsoIdentifier(s[i], IsDirAt(t, q)) {
      var j :| 0 <= j < i && s[j] == k;
      PickKeeps(t, p, j);
      DifferentIds(t, p, s, j, i);
    }
  }

  lemma DifferentIds(t: Tree, p: Path, s: seq<Text>, j: nat, i: nat)
    requires AllLevelOne(t) && j < i < |s| && NewAt(s, i) && Child(p, s[j]) in t && Child(p, s[i]) in t
    ensures IsoIdentifier(s[j], IsDirAt(t, Child(p, s[j]))) != IsoIdentifier(s[i], IsDirAt(t, Child(p, s[i])))
  {
    var a, b := Child(p, s[j]), Child(p, s[i]);
    assert NamedWell(t, a) && NamedWell(t, b) && s[..i][j] == s[j];
    if IsoIdentifier(s[j], IsDirAt(t, a)) == IsoIdentifier(s[i], IsDirAt(t, b)) {
      LevelOneInjective(s[j], IsDirAt(t, a), s[i], IsDirAt(t, b));
    }
  }

  /** Every entry keeps its name as its identifier, with the version added for a file. */
  lemma IdIsName(t: Tree, q: Path)
    requires AllLevelOne(t) && q in t && q.Child?
    ensures Id(t, q) == if t[q] == DirEntry then q.name else q.name + [0x3B, 0x31]
  {
    var s := ByName(t, q.parent);
    assert Hangs(t, q) && q == Child(q.parent, q.name) && q.name in Names(t, q.parent);
    ByNameDistinct(t, q.parent);
    assert q.name in Elems(s);
    var i :| 0 <= i < |s| && s[i] == q.name;
    PickKeeps(t, q.parent, i);
    assert NamedWell(t, q);
    LevelOneKept(q.name, IsDirAt(t, q));
  }

  /** So the reader shows it under its name. */
  lemma ShownName(t: Tree, q: Path)
    requires AllLevelOne(t) && q in t && q.Child?
    ensures CleanName(Id(t, q)) == q.name
  {
    IdIsName(t, q);
    assert q == Child(q.parent, q.name);
    SiblingIds(t, q.parent, q.name, q.name);
    CleanGoodId(Id(t, q), IsDirAt(t, q));
    assert t[q] != DirEntry ==> (q.name + [0x3B, 0x31])[..|q.name|] == q.name;
  }

  // ----- Paths -----

  /** The names on the way to an entry. */
  function NamesTo(q: Path): seq<Text> {
    if q.Root? then [] else NamesTo(q.parent) + [q.name]
  }

  lemma {:induction false} NamesToPath(parts: seq<Text>)
    ensures NamesTo(PathOf(parts)) == parts
  {
    if parts != [] {
      NamesToPath(parts[..|parts| - 1]);
      assert parts == parts[..|parts| - 1] + [parts[|parts| - 1]];
    }
  }

  lemma {:induction false} CleanPartsAreNames(t: Tree, q: Path)
    requires AllLevelOne(t) && q in t
    ensures CleanParts(t, q) == NamesTo(q)
  {
    if q.Child? {
      assert Hangs(t, q);
      ShownName(t, q);
      CleanPartsAreNames(t, q.parent);
    }
  }

  lemma NoShadows(t: Tree, q: Path)
    requires AllLevelOne(t) && q in t
    ensures !Shadowed(t, q)
  {
    forall p, k {:trigger SameClean(t, p, k)} | p in t && p.Child? && Child(p.parent, k) in t && SameClean(t, p, k)
      ensures k == p.name
    {
      ShownName(t, p);
      ShownName(t, Child(p.parent, k));
    }
    NothingShadowed(t, q);
  }

  /** The path of an entry as the reader spells it is its names, slashes between them. */
  lemma CleanPathIsPath(t: Tree, q: Path)
    requires AllLevelOne(t) && q in t
    ensures CleanPath(t, q) == JoinPath(NamesTo(q)) && SplitPath(CleanPath(t, q)) == NamesTo(q)
  {
    CleanPartsAreNames(t, q);
    CleanPartsUsable(t, q);
    SplitUndoesJoin(CleanParts(t, q));
  }

  /** Every spelling of a path leads where its cleaned spelling leads. */
  lemma SameLookup(t: Tree, fs: FileSystem, path: Text, q: Path)
    requires AllLevelOne(t) && q in t && PathOf(SplitPath(path)) == q
    ensures fs.Lookup(path) == fs.Lookup(CleanPath(t, q)) && fs.FileAt(path) == fs.FileAt(CleanPath(t, q))
    ensures fs.ListingAt(path) == fs.ListingAt(CleanPath(t, q))
  {
    NamesToPath(SplitPath(path));
    CleanPathIsPath(t, q);
  }

  /** A file stored under a path reads back under that same path. */
  lemma SamePathReadsBack(t: Tree, pl: Plan, v: Text, stamp: Stamp, ts: VolumeTime, fs: FileSystem, path: Text)
    requires Opens(t, pl, v, stamp, ts, fs) && AllLevelOne(t) && IsFile(t, PathOf(SplitPath(path)))
    ensures var f := PathOf(SplitPath(path));
            Yields(fs.rs, fs.FileAt(path), t[f].data, OpenWay(pl, f) && Acceptable(fs.size, |t[f].data|))
  {
    var f := PathOf(SplitPath(path));
    NoShadows(t, f);
    SameLookup(t, fs, path, f);
    FilesReadBack(t, pl, v, stamp, ts, fs, f);
  }

  /** Listing a directory shows each child under its own name, 2 marking directories, with the sector of its extent. */
  lemma SameNamesListed(t: Tree, pl: Plan, v: Text, stamp: Stamp, ts: VolumeTime, fs: FileSystem, path: Text, i: nat)
    requires Opens(t, pl, v, stamp, ts, fs) && AllLevelOne(t) && IsDirAt(t, PathOf(SplitPath(path)))
    requires fs.ListingAt(path).Ok? && i < |ById(t, PathOf(SplitPath(path)))|
    ensures var p := PathOf(SplitPath(path));
            var q, ls := Child(p, ById(t, p)[i]), fs.ListingAt(path).value;
            && q in t && |ls| == |ById(t, p)|
            && ls[i] == Listed(pl.lba[q], q.name, if t[q] == DirEntry then 2 else 0)
  {
    var p := PathOf(SplitPath(path));
    SameLookup(t, fs, path, p);
    DirectoriesListBack(t, pl, v, stamp, ts, fs, p);
    ListingMeans(t, pl, p, i);
    ShownName(t, Child(p, ById(t, p)[i]));
  }

  // ----- Adding a file to such a tree -----

  /** Capital letters, digits and "_", up to eight, in every component; the last may have an extension. */
  predicate PathLevelOne(parts: seq<Text>) {
    && parts != [] && LevelOne(parts[|parts| - 1], false)
    && forall i | 0 <= i < |parts| - 1 :: LevelOne(parts[i], true)
  }

  lemma {:induction false} AboveLevelOne(parts: seq<Text>, q: Path)
    requires AtOrBelow(q, PathOf(parts)) && q.Child? && forall i | 0 <= i < |parts| :: LevelOne(parts[i], true)
    ensures LevelOne(q.name, true)
  {
    if q != PathOf(parts) { AboveLevelOne(parts[..|parts| - 1], q); }
  }

  lemma AddFileKeepsLevelOne(t: Tree, parts: seq<Text>, data: Str)
    requires AllLevelOne(t) && PathLevelOne(parts) && AddFileTo(t, PathOf(parts), data).Ok?
    ensures AllLevelOne(AddFileTo(t, PathOf(parts), data).value)
  {
    var p, u, front := PathOf(parts), AddFileTo(t, PathOf(parts), data).value, parts[..|parts| - 1];
    AddFileMeans(t, p, data);
    PartsGiven(parts);
    AddKeepsWellFormed(t, p, data);
    forall q | q in u && q.Child? ensures NamedWell(u, q) {
      if q in t {
        assert NamedWell(t, q);
        if q == p { assert t[q] != DirEntry; }
      } else if q != p {
        AboveLevelOne(front, q);
      }
    }
  }

  lemma {:induction false} PartsGiven(parts: seq<Text>)
    requires forall i | 0 <= i < |parts| :: parts[i] != []
    ensures NamesGiven(PathOf(parts))
  {
    if parts != [] { PartsGiven(parts[..|parts| - 1]); }
  }
}
