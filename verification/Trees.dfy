/** The tree a builder accumulates, as a map from paths to entries, and everything layout derives from it alone. */
module Trees {
  import opened Bytes
  import opened Identifiers
  import opened Ordering
  import opened DirExtents

  /** An absolute path, from its last component back to the root. */
  datatype Path = Root | Child(parent: Path, name: Text)

  datatype Entry = DirEntry | FileEntry(data: Str)
  type Tree = map<Path, Entry>

  /** The path with these components. */
  function PathOf(parts: seq<Text>): Path {
    if parts == [] then Root else Child(PathOf(parts[..|parts| - 1]), parts[|parts| - 1])
  }

  /** `q` is `p` or lies below it. */
  predicate AtOrBelow(p: Path, q: Path) {
    p == q || (q.Child? && AtOrBelow(p, q.parent))
  }

  ghost predicate WellFormed(t: Tree) {
    && Root in t && t[Root].DirEntry?
    && forall p {:trigger Hangs(t, p)} | p in t && p.Child? :: Hangs(t, p)
  }

  /** The entry at `p` has a name and hangs below a directory. */
  predicate Hangs(t: Tree, p: Path)
    requires p.Child?
  {
    p.name != [] && p.parent in t && t[p.parent].DirEntry?
  }

  predicate IsFile(t: Tree, p: Path) { p in t && t[p].FileEntry? }
  predicate IsDirAt(t: Tree, p: Path) { p in t && t[p].DirEntry? }

  // ----- Siblings -----

  function Names(t: Tree, p: Path): (ks: set<Text>)
    ensures forall k :: k in ks <==> Child(p, k) in t
  {
    assert forall k | Child(p, k) in t :: Child(p, k).name == k;
    assert forall q | q in t && q.Child? :: Child(q.parent, q.name) == q;
    set q | q in t && q.Child? && q.parent == p :: q.name
  }

  /** The names of the directories directly under `p`. */
  function Subdirs(t: Tree, p: Path): set<Text> {
    set k | k in Names(t, p) && t[Child(p, k)].DirEntry?
  }

  function SelfKey(ks: set<Text>): (m: map<Text, Text>)
    ensures KeysDistinct(ks, m)
  {
    map k | k in ks :: k
  }

  /** Siblings in the order of their caller-supplied names. */
  ghost function ByName(t: Tree, p: Path): seq<Text> {
    OrderBy(Names(t, p), SelfKey(Names(t, p)))
  }

  lemma ByNameIsOrder(t: Tree, p: Path)
    ensures IsOrder(ByName(t, p), Names(t, p), SelfKey(Names(t, p)))
  {
    OrderByIsOrder(Names(t, p), SelfKey(Names(t, p)));
  }

  /** The on-disk identifiers of the entries directly under `p`. */
  ghost function Ids(t: Tree, p: Path): map<Text, Str> {
    Assign(ByName(t, p), 0, Subdirs(t, p), map[])
  }

  lemma ByNameDistinct(t: Tree, p: Path)
    ensures Distinct(ByName(t, p)) && Elems(ByName(t, p)) == Names(t, p)
  {
    var s := ByName(t, p);
    ByNameIsOrder(t, p);
    OrderIsDistinct(s, Names(t, p), SelfKey(Names(t, p)));
  }

  lemma NamesNonEmpty(t: Tree, p: Path)
    requires WellFormed(t)
    ensures forall k <- Names(t, p) :: k != []
  {
    forall k <- Names(t, p) ensures k != [] { assert Hangs(t, Child(p, k)); }
  }

  lemma IdsGood(t: Tree, p: Path)
    requires WellFormed(t)
    ensures Ids(t, p).Keys == Names(t, p)
    ensures GoodIds(Ids(t, p), Subdirs(t, p))
    ensures KeysDistinct(Names(t, p), Ids(t, p))
  {
    ByNameDistinct(t, p);
    NamesNonEmpty(t, p);
    AssignAll(ByName(t, p), Subdirs(t, p), Names(t, p));
  }

  lemma AssignAll(s: seq<Text>, dirs: set<Text>, names: set<Text>)
    requires Distinct(s) && Elems(s) == names && forall k <- names :: k != []
    ensures Assign(s, 0, dirs, map[]).Keys == names
    ensures GoodIds(Assign(s, 0, dirs, map[]), dirs)
    ensures KeysDistinct(names, Assign(s, 0, dirs, map[]))
  {
    assert forall n <- s :: n in names;
    AssignCorrect(s, 0, dirs, map[]);
  }

  /** The on-disk identifier of an entry other than the root. */
  ghost function Id(t: Tree, q: Path): Str
    requires WellFormed(t) && q in t && q.Child?
  {
    IdsGood(t, q.parent);
    assert q == Child(q.parent, q.name);
    Ids(t, q.parent)[q.name]
  }

  /** Siblings have distinct identifiers of the shape their kind demands. */
  lemma SiblingIds(t: Tree, p: Path, a: Text, b: Text)
    requires WellFormed(t) && a in Names(t, p) && b in Names(t, p)
    ensures GoodId(Id(t, Child(p, a)), t[Child(p, a)].DirEntry?)
    ensures Id(t, Child(p, a)) == Id(t, Child(p, b)) ==> a == b
  {
    IdsGood(t, p);
    assert SameKey(Ids(t, p), a, b) == (Ids(t, p)[a] == Ids(t, p)[b]);
  }

  /** Siblings in the order of their identifiers: the order of the directory's records. */
  ghost function ById(t: Tree, p: Path): seq<Text>
    requires WellFormed(t)
  {
    IdsGood(t, p);
    OrderBy(Names(t, p), Ids(t, p))
  }

  lemma ByIdIsOrder(t: Tree, p: Path)
    requires WellFormed(t)
    ensures IsOrder(ById(t, p), Names(t, p), Ids(t, p))
  {
    IdsGood(t, p);
    OrderByIsOrder(Names(t, p), Ids(t, p));
  }

  /** The listing by identifier, and the one by name, hold each child once, in ascending order. */
  lemma SiblingOrders(t: Tree, p: Path, i: nat, j: nat)
    requires WellFormed(t)
    ensures forall k :: (k in ById(t, p) <==> Child(p, k) in t) && (k in ByName(t, p) <==> Child(p, k) in t)
    ensures i < j < |ById(t, p)|
            ==> && Child(p, ById(t, p)[i]) in t && Child(p, ById(t, p)[j]) in t
                && Less(Id(t, Child(p, ById(t, p)[i])), Id(t, Child(p, ById(t, p)[j])))
    ensures i < j < |ByName(t, p)| ==> Less(ByName(t, p)[i], ByName(t, p)[j])
  {
    ByIdIsOrder(t, p);
    ByNameIsOrder(t, p);
    if i < j < |ById(t, p)| { assert ById(t, p)[i] in ById(t, p) && ById(t, p)[j] in ById(t, p); }
    if i < j < |ByName(t, p)| { assert ByName(t, p)[i] in ByName(t, p) && ByName(t, p)[j] in ByName(t, p); }
  }

  // ----- Sizes -----

  /** The identifier lengths of a directory's records: ".", "..", then each child. */
  ghost function RecordIdLens(t: Tree, p: Path): (lens: seq<nat>)
    requires WellFormed(t)
  {
    ByIdIsOrder(t, p);
    IdsGood(t, p);
    [1, 1] + LensOf(Ids(t, p), ById(t, p))
  }

  function LensOf(ids: map<Text, Str>, s: seq<Text>): (lens: seq<nat>)
    requires forall k <- s :: k in ids
    ensures |lens| == |s|
  {
    seq(|s|, i requires 0 <= i < |s| => |ids[s[i]]|)
  }

  ghost function DirLen(t: Tree, p: Path): nat
    requires WellFormed(t)
  {
    ExtentSize(RecordIdLens(t, p))
  }

  /** The byte length of an entry's extent. */
  ghost function Len(t: Tree, q: Path): nat
    requires WellFormed(t) && q in t
  {
    if t[q].DirEntry? then DirLen(t, q) else |t[q].data|
  }

  function Sectors(n: nat): nat { (n + 2047) / 2048 }

  lemma {:induction false} PackedLenAtLeast(lens: seq<nat>)
    ensures PackedLen(lens) >= |lens|
  {
    if lens != [] { PackedLenAtLeast(lens[..|lens| - 1]); }
  }

  /** A directory whose extent is under 4 GiB has identifiers short enough for their records. */
  lemma IdsShort(t: Tree, p: Path, k: Text)
    requires WellFormed(t) && k in Names(t, p) && DirLen(t, p) < TWO32
    ensures |Id(t, Child(p, k))| <= 25
  {
    PackedLenAtLeast(RecordIdLens(t, p));
    IdsGood(t, p);
    ByNameIsOrder(t, p);
    ByIdIsOrder(t, p);
    OrderSize(ById(t, p), Names(t, p), Ids(t, p));
    OrderSize(ByName(t, p), Names(t, p), SelfKey(Names(t, p)));
    NamesNonEmpty(t, p);
    AssignLengths(ByName(t, p), 0, Subdirs(t, p), map[]);
  }

  // ----- Traversal -----

  function Level(p: Path): nat { if p.Root? then 0 else 1 + Level(p.parent) }

  /** No path of `ps` has more than `depth` components. */
  ghost predicate Shallow(ps: set<Path>, depth: int) {
    forall q {:trigger Level(q)} | q in ps :: Level(q) <= depth
  }

  ghost function Height(t: Tree): (d: nat)
    ensures forall p <- t :: Level(p) <= d
  {
    if t == map[] then 0
    else
      var p :| p in t;
      assert forall q <- t :: q == p || q in t - {p};
      Max(Level(p), Height(t - {p}))
  }

  /** For each directory, its children in the order a traversal visits them. */
  type Listing = map<Path, seq<Text>>

  ghost predicate Lists(t: Tree, kids: Listing) {
    && WellFormed(t)
    && forall p | p in t && t[p].DirEntry? ::
              p in kids && Distinct(kids[p]) && forall k :: k in kids[p] <==> Child(p, k) in t
  }

  /** The listing in identifier order. */
  ghost function IdListing(t: Tree): (kids: Listing)
    requires WellFormed(t)
  {
    map p | p in t :: ById(t, p)
  }

  lemma IdListingLists(t: Tree)
    requires WellFormed(t)
    ensures Lists(t, IdListing(t))
  {
    forall p | p in t ensures Distinct(ById(t, p)) && forall k :: k in ById(t, p) <==> Child(p, k) in t {
      ByIdDistinct(t, p);
    }
  }

  lemma ByIdDistinct(t: Tree, p: Path)
    requires WellFormed(t)
    ensures Distinct(ById(t, p)) && forall k :: k in ById(t, p) <==> Child(p, k) in t
  {
    var s := ById(t, p);
    ByIdIsOrder(t, p);
    OrderIsDistinct(s, Names(t, p), Ids(t, p));
  }

  /** The files at or under the children `ks` of `p`, in the depth-first order of `place` and `writeFiles`. */
  ghost function FilesOf(t: Tree, kids: Listing, p: Path, ks: seq<Text>): seq<Path>
    requires Lists(t, kids) && forall k <- ks :: Child(p, k) in t
    decreases Height(t) - Level(p), |ks|
  {
    if ks == [] then []
    else
      assert ks[|ks| - 1] in ks;
      FilesOf(t, kids, p, ks[..|ks| - 1]) + FilesAt(t, kids, Child(p, ks[|ks| - 1]))
  }

  ghost function FilesAt(t: Tree, kids: Listing, q: Path): seq<Path>
    requires Lists(t, kids) && q in t
    decreases Height(t) - Level(q) + 1, 0
  {
    if t[q].FileEntry? then [q] else FilesOf(t, kids, q, kids[q])
  }

  ghost predicate FileBelow(t: Tree, q: Path, f: Path) {
    IsFile(t, f) && AtOrBelow(q, f)
  }

  /** Everything on the way up from an entry is a directory of the tree. */
  lemma {:induction false} AboveInTree(t: Tree, p: Path, q: Path)
    requires WellFormed(t) && q in t && AtOrBelow(p, q)
    ensures p in t && (p != q ==> t[p].DirEntry?)
  {
    if p != q {
      assert Hangs(t, q);
      AboveInTree(t, p, q.parent);
    }
  }

  /** The child of `p` through which the way to `q` goes. */
  function Towards(p: Path, q: Path): (k: Text)
    requires AtOrBelow(p, q) && p != q
    ensures AtOrBelow(Child(p, k), q)
  {
    if q.parent == p then q.name else Towards(p, q.parent)
  }

  lemma {:induction false} LevelsGrow(p: Path, q: Path)
    requires AtOrBelow(p, q)
    ensures Level(p) <= Level(q) && (Level(p) == Level(q) ==> p == q)
  {
    if p != q { LevelsGrow(p, q.parent); }
  }

  /** Subtrees of different siblings have nothing in common. */
  lemma {:induction false} SameChild(p: Path, a: Text, b: Text, q: Path)
    requires AtOrBelow(Child(p, a), q) && AtOrBelow(Child(p, b), q)
    ensures a == b
  {
    LevelsGrow(Child(p, a), q);
    LevelsGrow(Child(p, b), q);
    if q != Child(p, a) && q != Child(p, b) { SameChild(p, a, b, q.parent); }
  }

  lemma {:induction false} BelowChildIsBelow(p: Path, k: Text, q: Path)
    requires AtOrBelow(Child(p, k), q)
    ensures AtOrBelow(p, q) && p != q
  {
    LevelsGrow(Child(p, k), q);
    if q != Child(p, k) { BelowChildIsBelow(p, k, q.parent); }
  }

  lemma {:induction false} FilesOfExact(t: Tree, kids: Listing, p: Path, ks: seq<Text>, f: Path)
    requires Lists(t, kids) && forall k <- ks :: Child(p, k) in t
    ensures f in FilesOf(t, kids, p, ks) <==> exists k <- ks :: FileBelow(t, Child(p, k), f)
    decreases Height(t) - Level(p), |ks|
  {
    if ks != [] {
      var n := |ks| - 1;
      assert ks[n] in ks;
      FilesAtExact(t, kids, Child(p, ks[n]), f);
      FilesOfExact(t, kids, p, ks[..n], f);
      assert forall k :: k in ks <==> k == ks[n] || k in ks[..n];
    }
  }

  lemma {:induction false} FilesAtExact(t: Tree, kids: Listing, q: Path, f: Path)
    requires Lists(t, kids) && q in t
    ensures f in FilesAt(t, kids, q) <==> FileBelow(t, q, f)
    decreases Height(t) - Level(q) + 1, 0
  {
    if t[q].FileEntry? {
      if FileBelow(t, q, f) { AboveInTree(t, q, f); }
    } else {
      FilesOfExact(t, kids, q, kids[q], f);
      if FileBelow(t, q, f) {
        AboveInTree(t, Child(q, Towards(q, f)), f);
        assert Towards(q, f) in kids[q];
      }
      forall k | k in kids[q] && FileBelow(t, Child(q, k), f) ensures FileBelow(t, q, f) { BelowChildIsBelow(q, k, f); }
    }
  }

  /** Different children lead to different files. */
  lemma {:induction false} FilesOfDistinct(t: Tree, kids: Listing, p: Path, ks: seq<Text>)
    requires Lists(t, kids) && Distinct(ks) && forall k <- ks :: Child(p, k) in t
    ensures Distinct(FilesOf(t, kids, p, ks))
    decreases Height(t) - Level(p), |ks|
  {
    if ks != [] {
      var n := |ks| - 1;
      assert ks[n] in ks;
      var here, before := FilesAt(t, kids, Child(p, ks[n])), FilesOf(t, kids, p, ks[..n]);
      FilesAtDistinct(t, kids, Child(p, ks[n]));
      DistinctPrefix(ks, n);
      assert NewAt(ks, n);
      FilesOfDistinct(t, kids, p, ks[..n]);
      forall f | f in before ensures f !in here {
        FilesAtExact(t, kids, Child(p, ks[n]), f);
        FilesOfExact(t, kids, p, ks[..n], f);
        var k :| k in ks[..n] && FileBelow(t, Child(p, k), f);
        if f in here { SameChild(p, k, ks[n], f); }
      }
      DistinctAppend(before, here);
    }
  }

  lemma {:induction false} FilesAtDistinct(t: Tree, kids: Listing, q: Path)
    requires Lists(t, kids) && q in t
    ensures Distinct(FilesAt(t, kids, q))
    decreases Height(t) - Level(q) + 1, 0
  {
    if t[q].DirEntry? { FilesOfDistinct(t, kids, q, kids[q]); }
  }

  lemma {:induction false} BelowRoot(q: Path)
    ensures AtOrBelow(Root, q)
  {
    if q.Child? { BelowRoot(q.parent); }
  }

  /** The traversal from the root visits every file exactly once. */
  lemma AllFiles(t: Tree, kids: Listing)
    requires Lists(t, kids)
    ensures Distinct(FilesAt(t, kids, Root)) && forall p :: p in FilesAt(t, kids, Root) <==> IsFile(t, p)
  {
    FilesAtDistinct(t, kids, Root);
    forall p ensures p in FilesAt(t, kids, Root) <==> IsFile(t, p) {
      FilesAtExact(t, kids, Root, p);
      BelowRoot(p);
    }
  }

  // ----- AddDir and AddFile on the tree -----

  /** `p` or something on the way to it is a file. */
  predicate Blocked(t: Tree, p: Path) {
    IsFile(t, p) || (p.Child? && Blocked(t, p.parent))
  }

  /** The tree with `p` and everything missing on the way to it made a directory. */
  function WithDirs(t: Tree, p: Path): Tree {
    if p.Root? then t
    else
      var u := WithDirs(t, p.parent);
      if p in u then u else u[p := DirEntry]
  }

  /** What AddDir does to the tree: fails on a file in the way, else adds exactly the missing directories. */
  function AddDirTo(t: Tree, p: Path): Result<Tree> {
    if Blocked(t, p) then Err(Exists) else Ok(WithDirs(t, p))
  }

  /** What AddFile does to the tree: sets or replaces exactly one file, below directories it creates. */
  function AddFileTo(t: Tree, p: Path, data: Str): Result<Tree> {
    if p.Root? then Err(InvalidName)
    else if Blocked(t, p.parent) || IsDirAt(t, p) then Err(Exists)
    else Ok(WithDirs(t, p.parent)[p := FileEntry(data)])
  }

  /** Exactly the missing prefixes of `p` are added, as directories; nothing else changes. */
  lemma {:induction false} WithDirsAt(t: Tree, p: Path, q: Path)
    requires Root in t
    ensures q in WithDirs(t, p) <==> q in t || AtOrBelow(q, p)
    ensures q in t ==> WithDirs(t, p)[q] == t[q]
    ensures q !in t && AtOrBelow(q, p) ==> WithDirs(t, p)[q] == DirEntry
  {
    if p.Child? { WithDirsAt(t, p.parent, q); }
  }

  lemma {:induction false} NotBlocked(t: Tree, p: Path, q: Path)
    requires !Blocked(t, p) && AtOrBelow(q, p)
    ensures !IsFile(t, q)
  {
    if p != q { NotBlocked(t, p.parent, q); }
  }

  /** Making directories is idle where they all exist. */
  lemma {:induction false} WithDirsIdle(t: Tree, p: Path)
    requires forall q | AtOrBelow(q, p) :: q in t
    ensures WithDirs(t, p) == t
  {
    if p.Child? {
      assert AtOrBelow(p, p);
      WithDirsIdle(t, p.parent);
    }
  }

  lemma WithDirsOfPresent(t: Tree, p: Path)
    requires WellFormed(t) && p in t
    ensures WithDirs(t, p) == t
  {
    forall q | AtOrBelow(q, p) ensures q in t { AboveInTree(t, q, p); }
    WithDirsIdle(t, p);
  }

  /** Adding a directory again changes nothing; afterwards it and all its prefixes are directories. */
  lemma AddDirIdempotent(t: Tree, p: Path)
    requires WellFormed(t) && AddDirTo(t, p).Ok?
    ensures var u := AddDirTo(t, p).value;
            AddDirTo(u, p) == Ok(u) && forall q | AtOrBelow(q, p) :: q in u && u[q] == DirEntry
  {
    var u := AddDirTo(t, p).value;
    forall q | AtOrBelow(q, p) ensures q in u && u[q] == DirEntry {
      WithDirsAt(t, p, q);
      NotBlocked(t, p, q);
    }
    WithDirsIdle(u, p);
    DirsDoNotBlock(u, p);
  }

  lemma {:induction false} DirsDoNotBlock(u: Tree, p: Path)
    requires forall q | AtOrBelow(q, p) :: q in u && u[q] == DirEntry
    ensures !Blocked(u, p)
  {
    assert AtOrBelow(p, p);
    if p.Child? { DirsDoNotBlock(u, p.parent); }
  }

  /** A new entry below a directory, where there was nothing or a file, keeps the tree well formed. */
  lemma LeafKeepsWellFormed(t: Tree, q: Path, e: Entry)
    requires WellFormed(t) && q.Child? && q.name != [] && IsDirAt(t, q.parent)
    requires q in t ==> e.FileEntry? && t[q].FileEntry?
    ensures WellFormed(t[q := e])
  {
    var u := t[q := e];
    forall p | p in u && p.Child? ensures Hangs(u, p) {
      assert p == q || Hangs(t, p);
    }
  }

  predicate NamesGiven(p: Path) {
    p.Root? || (p.name != [] && NamesGiven(p.parent))
  }

  lemma {:induction false} WithDirsWellFormed(t: Tree, p: Path)
    requires WellFormed(t) && !Blocked(t, p) && NamesGiven(p)
    ensures WellFormed(WithDirs(t, p)) && IsDirAt(WithDirs(t, p), p)
  {
    if p.Child? {
      WithDirsWellFormed(t, p.parent);
      var u := WithDirs(t, p.parent);
      WithDirsAt(t, p.parent, p);
      if p !in u {
        LeafKeepsWellFormed(u, p, DirEntry);
      } else {
        LevelOfParent(p);
      }
    }
  }

  lemma LevelOfParent(p: Path)
    requires p.Child?
    ensures !AtOrBelow(p, p.parent)
  {
    if AtOrBelow(p, p.parent) { LevelsGrow(p, p.parent); }
  }

  /** Both operations keep the tree well formed when path components are non-empty. */
  lemma AddKeepsWellFormed(t: Tree, p: Path, data: Str)
    requires WellFormed(t) && NamesGiven(p)
    ensures AddDirTo(t, p).Ok? ==> WellFormed(AddDirTo(t, p).value)
    ensures AddFileTo(t, p, data).Ok? ==> WellFormed(AddFileTo(t, p, data).value)
  {
    if AddDirTo(t, p).Ok? { WithDirsWellFormed(t, p); }
    if AddFileTo(t, p, data).Ok? {
      WithDirsWellFormed(t, p.parent);
      WithDirsAt(t, p.parent, p);
      LevelOfParent(p);
      LeafKeepsWellFormed(WithDirs(t, p.parent), p, FileEntry(data));
    }
  }

  /** A path is blocked exactly by a file that is it or above it. */
  lemma {:induction false} BlockedMeans(t: Tree, p: Path)
    ensures Blocked(t, p) <==> exists q :: AtOrBelow(q, p) && q in t && t[q] != DirEntry
  {
    assert AtOrBelow(p, p);
    if p.Child? {
      BlockedMeans(t, p.parent);
      forall q | AtOrBelow(q, p.parent) ensures AtOrBelow(q, p) {}
    }
  }

  /** What AddDir leaves at every path, and exactly when it fails. */
  lemma AddDirMeans(t: Tree, p: Path)
    requires WellFormed(t)
    ensures var r := AddDirTo(t, p);
            if exists q :: AtOrBelow(q, p) && q in t && t[q] != DirEntry then r == Err(Exists)
            else && r.Ok? && p in r.value && r.value[p] == DirEntry
                 && (forall q :: q in r.value <==> q in t || AtOrBelow(q, p))
                 && (forall q | q in r.value :: r.value[q] == if q in t then t[q] else DirEntry)
  {
    BlockedMeans(t, p);
    assert AtOrBelow(p, p);
    forall q ensures q in WithDirs(t, p) <==> q in t || AtOrBelow(q, p) { WithDirsAt(t, p, q); }
    forall q | q in WithDirs(t, p) ensures WithDirs(t, p)[q] == if q in t then t[q] else DirEntry {
      WithDirsAt(t, p, q);
    }
  }

  /** What AddFile leaves at every path, and exactly when it fails: the data at `p`, directories above it, and nothing
      else changed. */
  lemma AddFileMeans(t: Tree, p: Path, data: Str)
    requires WellFormed(t)
    ensures var r := AddFileTo(t, p, data);
            if p == Root then r == Err(InvalidName)
            else if (p in t && t[p] == DirEntry) || exists q :: AtOrBelow(q, p.parent) && q in t && t[q] != DirEntry
            then r == Err(Exists)
            else && r.Ok? && p in r.value && r.value[p] == FileEntry(data)
                 && (forall q | q != p :: q in r.value <==> q in t || AtOrBelow(q, p.parent))
                 && (forall q | q != p && q in r.value :: r.value[q] == if q in t then t[q] else DirEntry)
  {
    if p.Child? {
      BlockedMeans(t, p.parent);
      var u := WithDirs(t, p.parent);
      forall q ensures q in u <==> q in t || AtOrBelow(q, p.parent) { WithDirsAt(t, p.parent, q); }
      forall q | q in u ensures u[q] == if q in t then t[q] else DirEntry { WithDirsAt(t, p.parent, q); }
    }
  }

  lemma NothingUnder(t: Tree, q: Path)
    requires WellFormed(t) && !IsDirAt(t, q)
    ensures forall k :: Child(q, k) !in t
  {
    forall k ensures Child(q, k) !in t {
      assert Child(q, k) in t ==> Hangs(t, Child(q, k));
    }
  }
}
