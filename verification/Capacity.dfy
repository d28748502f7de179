/** How large a tree the format's 32-bit fields can take: a bound a caller can check. */
module Capacity {
  import opened Bytes
  import opened Identifiers
  import opened DirExtents
  import opened Trees
  import opened Plans
  import opened Numbering

  const MAX_ENTRIES: nat := 1000
  const MAX_FILE: nat := 0x4000_0000
  const MAX_DIR_BYTES: nat := 124_928

  /** At most a thousand entries, and no file over 1 GiB. */
  ghost predicate Small(t: Tree) {
    WellFormed(t) && |t| <= MAX_ENTRIES && forall p <- t :: t[p].FileEntry? ==> |t[p].data| <= MAX_FILE
  }

  function ChildPaths(p: Path, ks: seq<Text>): (ps: seq<Path>)
    ensures |ps| == |ks| && forall i | 0 <= i < |ks| :: ps[i] == Child(p, ks[i])
  {
    seq(|ks|, i requires 0 <= i < |ks| => Child(p, ks[i]))
  }

  /** A directory has no more children than the tree has entries. */
  lemma FewKids(t: Tree, p: Path, ks: seq<Text>)
    requires Distinct(ks) && forall k <- ks :: Child(p, k) in t
    ensures |ks| <= |t|
  {
    var ps := ChildPaths(p, ks);
    forall j | 0 <= j < |ps| ensures NewAt(ps, j) {
      assert NewAt(ks, j);
      forall i | 0 <= i < j ensures ps[i] != ps[j] { assert ks[i] == ks[..j][i]; }
    }
    ShortList(ps, t.Keys);
  }

  lemma IdsBounded(t: Tree, p: Path, k: Text)
    requires Small(t) && k in Names(t, p)
    ensures |Id(t, Child(p, k))| <= 25
  {
    IdsGood(t, p);
    ByNameDistinct(t, p);
    assert forall n <- ByName(t, p) :: n in Elems(ByName(t, p));
    FewKids(t, p, ByName(t, p));
    NamesNonEmpty(t, p);
    AssignLengths(ByName(t, p), 0, Subdirs(t, p), map[]);
  }

  lemma {:induction false} PackedBound(lens: seq<nat>)
    requires forall i | 0 <= i < |lens| :: lens[i] <= 25
    ensures PackedLen(lens) <= 120 * |lens|
  {
    if lens != [] { PackedBound(lens[..|lens| - 1]); }
  }

  lemma LenCount(t: Tree, p: Path)
    requires Small(t)
    ensures |RecordIdLens(t, p)| <= |t| + 2
  {
    ByIdDistinct(t, p);
    FewKids(t, p, ById(t, p));
  }

  lemma RecordLenBounded(t: Tree, p: Path, i: nat)
    requires Small(t) && i < |RecordIdLens(t, p)|
    ensures RecordIdLens(t, p)[i] <= 25
  {
    if i >= 2 {
      ByIdIsOrder(t, p);
      assert ById(t, p)[i - 2] in ById(t, p);
      IdsGood(t, p);
      IdsBounded(t, p, ById(t, p)[i - 2]);
    }
  }

  lemma DirBounded(t: Tree, p: Path)
    requires Small(t)
    ensures DirLen(t, p) <= MAX_DIR_BYTES
  {
    var lens := RecordIdLens(t, p);
    LenCount(t, p);
    forall i | 0 <= i < |lens| ensures lens[i] <= 25 { RecordLenBounded(t, p, i); }
    PackedBound(lens);
  }

  lemma LenBounded(t: Tree, p: Path)
    requires Small(t) && p in t
    ensures Len(t, p) <= MAX_FILE
  {
    if IsDirAt(t, p) { DirBounded(t, p); }
  }

  lemma OneMoreTimes(m: nat, n: nat)
    ensures m * (n + 1) == m * n + m
  {
  }

  lemma {:induction false} SumBound(w: Weights, ps: set<Path>, m: nat)
    requires ps <= w.Keys && forall p <- ps :: w[p] <= m
    ensures SumSet(w, ps) <= m * |ps|
  {
    if ps != {} {
      var p :| p in ps && SumSet(w, ps) == SumSet(w, ps - {p}) + w[p];
      SumBound(w, ps - {p}, m);
      OneMoreTimes(m, |ps - {p}|);
      assert |ps| == |ps - {p}| + 1;
    }
  }

  lemma PtBounded(t: Tree)
    requires Small(t)
    ensures PtBytes(t) <= 34 * |t|
  {
    var w := PtWeights(t);
    forall p <- w ensures w[p] <= 34 {
      if p.Child? {
        assert Hangs(t, p) && p == Child(p.parent, p.name);
        IdsBounded(t, p.parent, p.name);
      }
    }
    SumBound(w, w.Keys, 34);
    SubsetSize(w.Keys, t.Keys);
  }

  /** Every small tree fits, and none of its directories is too large for the reader. */
  lemma SmallTreesFit(t: Tree)
    requires Small(t)
    ensures Fits(t) && forall p <- t :: t[p].DirEntry? ==> Len(t, p) <= MAX_DIR_BYTES
  {
    var w := SectorWeights(t);
    forall p <- t ensures Len(t, p) <= MAX_FILE && (t[p].DirEntry? ==> Len(t, p) <= MAX_DIR_BYTES) && w[p] <= 524_288 {
      LenBounded(t, p);
      if IsDirAt(t, p) { DirBounded(t, p); }
    }
    SumBound(w, t.Keys, 524_288);
    PtBounded(t);
  }

  // ----- Adding a file -----

  lemma {:induction false} WithDirsSize(t: Tree, p: Path)
    ensures |WithDirs(t, p)| <= |t| + Level(p)
  {
    if p.Child? { WithDirsSize(t, p.parent); }
  }

  /** A tree stays small if there is room for every component of the path. */
  lemma AddFileKeepsSmall(t: Tree, p: Path, data: Str)
    requires Small(t) && NamesGiven(p) && AddFileTo(t, p, data).Ok?
    requires |t| + Level(p) <= MAX_ENTRIES && |data| <= MAX_FILE
    ensures Small(AddFileTo(t, p, data).value)
  {
    var u := AddFileTo(t, p, data).value;
    AddFileMeans(t, p, data);
    AddKeepsWellFormed(t, p, data);
    WithDirsSize(t, p.parent);
    forall q | q in u && u[q].FileEntry? ensures |u[q].data| <= MAX_FILE {
      if q != p { assert q in t && t[q] == u[q]; }
    }
  }
}
