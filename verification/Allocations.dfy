/** Where a plan puts everything: `layout` (create.go) seen from the sectors. */
module Allocations {
  import opened Bytes
  import opened Trees
  import opened Plans
  import opened Layouts

  // ----- Before -----

  /** `f` stands before `g`. */
  ghost predicate Before(s: seq<Path>, f: Path, g: Path) {
    exists i, j | 0 <= i < j < |s| :: s[i] == f && s[j] == g
  }

  lemma BeforeAt(s: seq<Path>, f: Path, g: Path, i: nat, j: nat)
    requires i < j < |s| && s[i] == f && s[j] == g
    ensures Before(s, f, g)
  {
  }

  lemma BeforeAcross(x: seq<Path>, y: seq<Path>, f: Path, g: Path)
    requires f in x && g in y
    ensures Before(x + y, f, g)
  {
    var i :| 0 <= i < |x| && x[i] == f;
    var j :| 0 <= j < |y| && y[j] == g;
    BeforeAt(x + y, f, g, i, |x| + j);
  }

  lemma BeforeWider(x: seq<Path>, y: seq<Path>, f: Path, g: Path)
    ensures Before(x, f, g) ==> Before(x + y, f, g)
    ensures Before(y, f, g) ==> Before(x + y, f, g)
  {
    if Before(x, f, g) {
      var i, j :| 0 <= i < j < |x| && x[i] == f && x[j] == g;
      BeforeAt(x + y, f, g, i, j);
    }
    if Before(y, f, g) {
      var i, j :| 0 <= i < j < |y| && y[i] == f && y[j] == g;
      BeforeAt(x + y, f, g, |x| + i, |x| + j);
    }
  }

  // ----- The traversal of files -----

  /** Files below an earlier child come before files below a later one. */
  lemma {:induction false} ChildrenInOrder(t: Tree, kids: Listing, p: Path, ks: seq<Text>, a: nat, b: nat, f: Path,
                                           g: Path)
    requires Lists(t, kids) && (forall k <- ks :: Child(p, k) in t) && a < b < |ks|
    requires FileBelow(t, Child(p, ks[a]), f) && FileBelow(t, Child(p, ks[b]), g)
    ensures Before(FilesOf(t, kids, p, ks), f, g)
    decreases |ks|
  {
    var n := |ks| - 1;
    var front, last := FilesOf(t, kids, p, ks[..n]), FilesAt(t, kids, Child(p, ks[n]));
    assert ks[n] in ks;
    if b == n {
      assert ks[a] in ks[..n];
      FilesOfExact(t, kids, p, ks[..n], f);
      FilesAtExact(t, kids, Child(p, ks[n]), g);
      BeforeAcross(front, last, f, g);
    } else {
      ChildrenInOrder(t, kids, p, ks[..n], a, b, f, g);
      BeforeWider(front, last, f, g);
    }
  }

  /** The files of one child are a stretch of those of all. */
  lemma {:induction false} ChildWithin(t: Tree, kids: Listing, p: Path, ks: seq<Text>, k: Text, f: Path, g: Path)
    requires Lists(t, kids) && (forall c <- ks :: Child(p, c) in t) && k in ks
    requires Before(FilesAt(t, kids, Child(p, k)), f, g)
    ensures Before(FilesOf(t, kids, p, ks), f, g)
    decreases |ks|
  {
    var n := |ks| - 1;
    assert ks[n] in ks;
    if ks[n] != k {
      assert k in ks[..n];
      ChildWithin(t, kids, p, ks[..n], k, f, g);
    }
    BeforeWider(FilesOf(t, kids, p, ks[..n]), FilesAt(t, kids, Child(p, ks[n])), f, g);
  }

  /** Order within a directory is order within the whole tree. */
  lemma {:induction false} OrderInTree(t: Tree, kids: Listing, d: Path, f: Path, g: Path)
    requires Lists(t, kids) && IsDirAt(t, d) && Before(FilesAt(t, kids, d), f, g)
    ensures Before(FilesAt(t, kids, Root), f, g)
    decreases d
  {
    if d.Child? {
      assert Hangs(t, d) && d == Child(d.parent, d.name);
      ChildWithin(t, kids, d.parent, kids[d.parent], d.name, f, g);
      OrderInTree(t, kids, d.parent, f, g);
    }
  }

  // ----- Sectors -----

  lemma BeforeInSectors(w: Weights, ps: seq<Path>, lba: Lbas, start: int, end: int, f: Path, g: Path)
    requires Consecutive(w, ps, lba, start, end) && Before(ps, f, g)
    ensures f in w && g in w && f in lba && g in lba && lba[f] + w[f] <= lba[g]
  {
    var i, j :| 0 <= i < j < |ps| && ps[i] == f && ps[j] == g;
    ConsecutiveDisjoint(w, ps, lba, start, end, i, j);
  }

  /** Files lie on disk in the order of the tree: those at or below a child of smaller identifier come first. */
  lemma FilesInTreeOrder(t: Tree, pl: Plan, d: Path, a: Text, b: Text, f: Path, g: Path)
    requires IsPlan(t, pl) && Child(d, a) in t && Child(d, b) in t && Less(Id(t, Child(d, a)), Id(t, Child(d, b)))
    requires FileBelow(t, Child(d, a), f) && FileBelow(t, Child(d, b), g)
    ensures pl.lba[f] + (|t[f].data| + 2047) / 2048 <= pl.lba[g]
  {
    var i, j := SmallerFirst(t, d, a, b);
    FilesInListing(t, d, i, j, f, g);
    FilesApart(t, pl, f, g);
  }

  lemma FilesInListing(t: Tree, d: Path, i: nat, j: nat, f: Path, g: Path)
    requires WellFormed(t) && i < j < |ById(t, d)|
    requires FileBelow(t, Child(d, ById(t, d)[i]), f) && FileBelow(t, Child(d, ById(t, d)[j]), g)
    ensures Before(AllFilesOf(t), f, g)
  {
    var kids, ks := IdListing(t), ById(t, d);
    IdListingLists(t);
    ByIdDistinct(t, d);
    assert ks[i] in ks;
    assert Hangs(t, Child(d, ks[i]));
    ChildrenInOrder(t, kids, d, ks, i, j, f, g);
    OrderInTree(t, kids, d, f, g);
  }

  lemma SmallerFirst(t: Tree, d: Path, a: Text, b: Text) returns (i: nat, j: nat)
    requires WellFormed(t) && Child(d, a) in t && Child(d, b) in t && Less(Id(t, Child(d, a)), Id(t, Child(d, b)))
    ensures i < j < |ById(t, d)| && ById(t, d)[i] == a && ById(t, d)[j] == b
  {
    ByIdDistinct(t, d);
    var k :| 0 <= k < |ById(t, d)| && ById(t, d)[k] == a;
    var l :| 0 <= l < |ById(t, d)| && ById(t, d)[l] == b;
    ByIdIsOrder(t, d);
    var x, y := Id(t, Child(d, a)), Id(t, Child(d, b));
    if k == l { LessIrreflexive(x); }
    if l < k {
      LessTrans(x, y, x);
      LessIrreflexive(x);
    }
    i, j := k, l;
  }

  lemma FilesApart(t: Tree, pl: Plan, f: Path, g: Path)
    requires IsPlan(t, pl) && IsFile(t, f) && Before(AllFilesOf(t), f, g)
    ensures g in t && pl.lba[f] + (|t[f].data| + 2047) / 2048 <= pl.lba[g]
  {
    BeforeWider(pl.dirs, AllFilesOf(t), f, g);
    BeforeInSectors(SectorWeights(t), pl.dirs + AllFilesOf(t), pl.lba, DataStart(t), TotalNeeded(t), f, g);
  }

  /** The root directory comes right after the two path tables, which start at sector 18; every directory comes before
      every file, and directories in the order of the path table. */
  lemma DirectoriesFirst(t: Tree, pl: Plan, i: nat, j: nat, f: Path)
    requires IsPlan(t, pl) && i < j < |pl.dirs| && IsFile(t, f)
    ensures pl.dirs[0] == Root && pl.lba[Root] == 18 + (pl.ptBytes + 2047) / 2048 + (pl.ptBytes + 2047) / 2048
    ensures pl.dirs[i] in t && pl.dirs[j] in t
    ensures pl.lba[pl.dirs[i]] + (Len(t, pl.dirs[i]) + 2047) / 2048 <= pl.lba[pl.dirs[j]]
    ensures pl.lba[pl.dirs[i]] + (Len(t, pl.dirs[i]) + 2047) / 2048 <= pl.lba[f]
  {
    var all, w := pl.dirs + AllFilesOf(t), SectorWeights(t);
    AllFilesOnce(t);
    assert pl.dirs[i] in pl.dirs && pl.dirs[j] in pl.dirs;
    BeforeAt(all, pl.dirs[i], pl.dirs[j], i, j);
    BeforeAcross(pl.dirs, AllFilesOf(t), pl.dirs[i], f);
    BeforeInSectors(w, all, pl.lba, DataStart(t), TotalNeeded(t), pl.dirs[i], pl.dirs[j]);
    BeforeInSectors(w, all, pl.lba, DataStart(t), TotalNeeded(t), pl.dirs[i], f);
    RootFirst(t, pl);
  }

  lemma RootFirst(t: Tree, pl: Plan)
    requires Plots(t, pl)
    ensures pl.dirs[0] == Root && pl.lba[Root] == 18 + (pl.ptBytes + 2047) / 2048 + (pl.ptBytes + 2047) / 2048
  {
    StartMeans(pl.ptBytes, pl.mLBA, pl.start);
    FirstAt(pl.s.w, pl.dirs, pl.lba, pl.start, pl.mid);
  }

  lemma StartMeans(ptBytes: nat, mLBA: int, start: int)
    requires Tables(ptBytes, mLBA, start)
    ensures start == 18 + (ptBytes + 2047) / 2048 + (ptBytes + 2047) / 2048
  {
  }

  lemma FirstAt(w: Weights, ps: seq<Path>, lba: Lbas, start: int, end: int)
    requires Consecutive(w, ps, lba, start, end) && ps != []
    ensures ps[0] in lba && lba[ps[0]] == start
  {
    assert LbaIs(w, ps, lba, start, 0) && ps[..0] == [];
  }

  /** The path-table order: the root first, then by the number of the parent, then by identifier. */
  lemma TableOrder(t: Tree, pl: Plan, i: nat, j: nat)
    requires IsPlan(t, pl) && 0 < i < j < |pl.dirs|
    ensures pl.dirs[0] == Root && pl.dirs[i] in t && pl.dirs[j] in t && pl.dirs[i].Child? && pl.dirs[j].Child?
    ensures pl.up[i] < pl.up[j] || (pl.up[i] == pl.up[j] && Less(Id(t, pl.dirs[i]), Id(t, pl.dirs[j])))
    ensures pl.up[j] < j && pl.dirs[pl.up[j]] == pl.dirs[j].parent
  {
    assert HungAt(pl.dirs, pl.up, i) && HungAt(pl.dirs, pl.up, j);
    assert pl.dirs[i] in pl.dirs && pl.dirs[j] in pl.dirs && PtBefore(t, pl.dirs, pl.up, i, j);
  }
}
