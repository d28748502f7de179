/** Directory numbers: `orderedDirs` and the path-table size (create.go). */
module Numbering {
  import opened Bytes
  import opened Ordering
  import opened Trees
  import opened Plans
  import opened Builders
  import opened Siblings
  import opened Naming

  // ----- Children in identifier order -----

  /** Every node has its identifier and points at its parent. */
  ghost predicate Titled(b: Builder, t: Tree)
    reads b`nodes, b`repr, b`entries, b.repr`children, b.repr`id, b.repr`parent
  {
    Ready(b, t, b.root) && b.root in b.repr && b.root.parent == null && NamedBelow(b, AllIds(t), Root)
  }

  /** Once identifiers are assigned, a directory's children sort by them. */
  lemma NamedKids(b: Builder, t: Tree, n: Node)
    requires Titled(b, t) && Ready(b, t, n)
    ensures Uniform(n.children) && KeysOf(n.children) == Ids(t, n.path)
  {
    ChildNodes(b, n);
    IdsGood(t, n.path);
    forall k <- n.children ensures n.children[k].id != [] && n.children[k].id == Ids(t, n.path)[k] {
      BelowRoot(Child(n.path, k));
      assert Named(b, AllIds(t), Child(n.path, k));
      SiblingIds(t, n.path, k, k);
    }
  }

  method IdKidsInOrder(b: Builder, ghost t: Tree, n: Node, ghost s: Survey) returns (cs: seq<Node>)
    requires Titled(b, t) && Ready(b, t, n) && Surveyed(t, s)
    ensures KidsOf(b, n.path, cs) && NamesOf(cs) == s.kids[n.path]
  {
    assert SurveyedAt(t, s, n.path);
    NamedKids(b, t, n);
    ChildNodes(b, n);
    IdsGood(t, n.path);
    cs := KidsInOrder(b, n);
    ByIdIsOrder(t, n.path);
    OrderUnique(NamesOf(cs), ById(t, n.path), Names(t, n.path), Ids(t, n.path));
  }

  // ----- orderedDirs -----

  /** Those of the entries `ks` below `p` that are directories. */
  function DirsOf(t: Tree, p: Path, ks: seq<Text>): (ds: seq<Path>)
    ensures forall q :: q in ds <==> q.Child? && q.parent == p && q.name in ks && IsDirAt(t, q)
  {
    if ks == [] then []
    else
      var n := |ks| - 1;
      assert ks == ks[..n] + [ks[n]];
      DirsOf(t, p, ks[..n]) + if IsDirAt(t, Child(p, ks[n])) then [Child(p, ks[n])] else []
  }

  lemma DirsOfNext(t: Tree, ps: seq<Path>, p: Path, ks: seq<Text>, i: nat)
    requires i < |ks|
    ensures ps + DirsOf(t, p, ks[..i + 1])
         == ps + DirsOf(t, p, ks[..i]) + if IsDirAt(t, Child(p, ks[i])) then [Child(p, ks[i])] else []
  {
    assert ks[..i + 1][..i] == ks[..i];
  }

  /** They keep the order of their identifiers. */
  lemma {:induction false} DirsOfOrdered(t: Tree, p: Path, ks: seq<Text>, i: nat, j: nat)
    requires WellFormed(t) && i < j < |DirsOf(t, p, ks)|
    requires forall a, b | 0 <= a < b < |ks| :: IdBefore(t, Child(p, ks[a]), Child(p, ks[b]))
    ensures IdBefore(t, DirsOf(t, p, ks)[i], DirsOf(t, p, ks)[j])
  {
    var n := |ks| - 1;
    var before := DirsOf(t, p, ks[..n]);
    if j < |before| {
      DirsOfOrdered(t, p, ks[..n], i, j);
    } else {
      var q := before[i];
      assert q in before;
      var a :| 0 <= a < n && ks[a] == q.name;
      assert q == Child(p, ks[a]);
    }
  }

  lemma ByIdBefore(t: Tree, p: Path, i: nat, j: nat)
    requires WellFormed(t) && i < j < |ById(t, p)|
    ensures IdBefore(t, Child(p, ById(t, p)[i]), Child(p, ById(t, p)[j]))
  {
    ByIdIsOrder(t, p);
    assert ById(t, p)[i] in ById(t, p) && ById(t, p)[j] in ById(t, p);
  }

  lemma IdBeforeIrreflexive(t: Tree, p: Path, q: Path)
    requires WellFormed(t) && IdBefore(t, p, q)
    ensures p != q
  {
    LessIrreflexive(Id(t, p));
  }

  /** All subdirectories of directory i are on the list. */
  ghost predicate Expanded(t: Tree, ps: seq<Path>, i: nat)
    requires i < |ps|
  {
    forall q | IsDirAt(t, q) && q.Child? && q.parent == ps[i] :: q in ps
  }

  /** The worklist of `orderedDirs` after the first i directories have been expanded. */
  ghost predicate Worklist(t: Tree, ps: seq<Path>, up: seq<nat>, i: nat) {
    && WellFormed(t) && i <= |ps| == |up| && |ps| > 0 && ps[0] == Root && up[0] == 0
    && Distinct(ps)
    && (forall p <- ps :: IsDirAt(t, p))
    && (forall j | 0 < j < |ps| :: HungAt(ps, up, j) && up[j] < i)
    && (forall j, k | 0 < j < k < |ps| :: PtBefore(t, ps, up, j, k))
    && (forall j | 0 <= j < i :: Expanded(t, ps, j))
  }

  lemma OrderedDistinct(t: Tree, ds: seq<Path>)
    requires WellFormed(t) && forall a, b | 0 <= a < b < |ds| :: IdBefore(t, ds[a], ds[b])
    ensures Distinct(ds)
  {
    forall j | 0 <= j < |ds| ensures NewAt(ds, j) {
      forall i | 0 <= i < j ensures ds[i] != ds[j] { IdBeforeIrreflexive(t, ds[i], ds[j]); }
    }
  }

  lemma SubdirsOrdered(t: Tree, p: Path, ds: seq<Path>)
    requires WellFormed(t) && ds == DirsOf(t, p, ById(t, p))
    ensures forall a, b | 0 <= a < b < |ds| :: IdBefore(t, ds[a], ds[b])
  {
    var ks := ById(t, p);
    forall a, b | 0 <= a < b < |ks| ensures IdBefore(t, Child(p, ks[a]), Child(p, ks[b])) { ByIdBefore(t, p, a, b); }
    forall a, b | 0 <= a < b < |ds| ensures IdBefore(t, ds[a], ds[b]) { DirsOfOrdered(t, p, ks, a, b); }
  }

  /** No subdirectory of directory i is listed before that directory is expanded. */
  lemma NotListedYet(t: Tree, ps: seq<Path>, up: seq<nat>, i: nat, q: Path)
    requires Worklist(t, ps, up, i) && i < |ps| && q.Child? && q.parent == ps[i]
    ensures q !in ps
  {
    if q in ps {
      var j :| 0 <= j < |ps| && ps[j] == q;
      assert j > 0 && HungAt(ps, up, j) && up[j] < i;
      DistinctAt(ps, up[j], i);
    }
  }

  lemma NewDirs(t: Tree, ps: seq<Path>, up: seq<nat>, i: nat, ds: seq<Path>)
    requires Worklist(t, ps, up, i) && i < |ps| && ds == DirsOf(t, ps[i], ById(t, ps[i]))
    ensures Distinct(ps + ds) && forall a, b | 0 <= a < b < |ds| :: IdBefore(t, ds[a], ds[b])
  {
    SubdirsOrdered(t, ps[i], ds);
    OrderedDistinct(t, ds);
    forall q | q in ps ensures q !in ds {
      if q in ds { NotListedYet(t, ps, up, i, q); }
    }
    DistinctAppend(ps, ds);
  }

  /** The list `ps'` is `ps` with the subdirectories `ds` of directory i added. */
  ghost predicate Grown(t: Tree, ps: seq<Path>, up: seq<nat>, i: nat, ds: seq<Path>, ps': seq<Path>, up': seq<nat>) {
    && Worklist(t, ps, up, i) && i < |ps| && ds == DirsOf(t, ps[i], ById(t, ps[i]))
    && ps' == ps + ds && |up'| == |ps'| && up'[..|ps|] == up && forall j | |ps| <= j < |ps'| :: up'[j] == i
  }

  lemma GrownHung(t: Tree, ps: seq<Path>, up: seq<nat>, i: nat, ds: seq<Path>, ps': seq<Path>, up': seq<nat>, j: nat)
    requires Grown(t, ps, up, i, ds, ps', up') && 0 < j < |ps'|
    ensures HungAt(ps', up', j) && up'[j] < i + 1
  {
    if j < |ps| {
      assert HungAt(ps, up, j) && up'[..|ps|][j] == up[j];
    } else {
      assert ds[j - |ps|] in ds;
    }
  }

  lemma GrownOrder(t: Tree, ps: seq<Path>, up: seq<nat>, i: nat, ds: seq<Path>, ps': seq<Path>, up': seq<nat>, j: nat,
                   k: nat)
    requires Grown(t, ps, up, i, ds, ps', up') && 0 < j < k < |ps'|
    ensures PtBefore(t, ps', up', j, k)
  {
    assert j < |ps| ==> up'[..|ps|][j] == up[j];
    if k < |ps| {
      assert PtBefore(t, ps, up, j, k) && up'[..|ps|][k] == up[k];
    } else if j < |ps| {
      assert HungAt(ps, up, j);
    } else {
      NewDirs(t, ps, up, i, ds);
      assert IdBefore(t, ds[j - |ps|], ds[k - |ps|]);
    }
  }

  lemma GrownExpanded(t: Tree, ps: seq<Path>, up: seq<nat>, i: nat, ds: seq<Path>, ps': seq<Path>, up': seq<nat>,
                      j: nat)
    requires Grown(t, ps, up, i, ds, ps', up') && j < i + 1
    ensures Expanded(t, ps', j)
  {
    if j < i { assert Expanded(t, ps, j); } else { ByIdDistinct(t, ps[i]); }
  }

  /** Expanding directory i keeps the list in path-table order. */
  lemma Expand(t: Tree, ps: seq<Path>, up: seq<nat>, i: nat, ds: seq<Path>, ps': seq<Path>, up': seq<nat>)
    requires Grown(t, ps, up, i, ds, ps', up')
    ensures Worklist(t, ps', up', i + 1)
  {
    NewDirs(t, ps, up, i, ds);
    assert ps'[0] == ps[0] && up'[0] == up'[..|ps|][0];
    forall j: nat | 0 < j < |ps'| ensures HungAt(ps', up', j)
           && up'[j] < i + 1 { GrownHung(t, ps, up, i, ds, ps', up', j); }
    forall j: nat, k: nat | 0 < j < k < |ps'|
      ensures PtBefore(t, ps', up', j, k) { GrownOrder(t, ps, up, i, ds, ps', up', j, k); }
    forall j: nat | j < i + 1 ensures Expanded(t, ps', j) { GrownExpanded(t, ps, up, i, ds, ps', up', j); }
  }

  lemma {:induction false} Reached(t: Tree, ps: seq<Path>, up: seq<nat>, q: Path)
    requires Worklist(t, ps, up, |ps|) && IsDirAt(t, q)
    ensures q in ps
  {
    if q.Child? {
      assert Hangs(t, q);
      Reached(t, ps, up, q.parent);
      var j :| 0 <= j < |ps| && ps[j] == q.parent;
      assert Expanded(t, ps, j);
    }
  }

  /** When every listed directory is expanded, the list numbers the tree. */
  lemma WorklistDone(t: Tree, ps: seq<Path>, up: seq<nat>)
    requires Worklist(t, ps, up, |ps|)
    ensures Numbered(t, ps, up)
  {
    forall p ensures p in ps <==> IsDirAt(t, p) {
      if IsDirAt(t, p) { Reached(t, ps, up, p); }
    }
  }

  lemma {:induction false} ShortList(ps: seq<Path>, all: set<Path>)
    requires Distinct(ps) && forall p <- ps :: p in all
    ensures |ps| <= |all|
  {
    if ps != [] {
      var n := |ps| - 1;
      assert ps[n] in ps;
      assert NewAt(ps, n);
      DistinctPrefix(ps, n);
      ShortList(ps[..n], all - {ps[n]});
    }
  }

  /** The nodes `dirs` are the ones at `ps`. */
  ghost predicate NodesAt(b: Builder, dirs: seq<Node>, ps: seq<Path>)
    reads b`nodes
  {
    |dirs| == |ps| && forall i | 0 <= i < |ps| :: ps[i] in b.nodes && b.nodes[ps[i]] == dirs[i]
  }

  method OrderedDirs(b: Builder, ghost t: Tree, ghost s: Survey)
    returns (dirs: seq<Node>, ghost ps: seq<Path>, ghost up: seq<nat>)
    requires Titled(b, t) && Surveyed(t, s)
    ensures NodesAt(b, dirs, ps) && Numbered(t, ps, up)
  {
    dirs, ps, up := [b.root], [Root], [0];
    var i := 0;
    while i < |dirs|
      invariant i <= |dirs| && NodesAt(b, dirs, ps) && Worklist(t, ps, up, i)
      decreases |t.Keys| - i
    {
      ShortList(ps, t.Keys);
      assert SurveyedAt(t, s, ps[i]);
      var cs := IdKidsInOrder(b, t, dirs[i], s);
      ghost var ds := DirsOf(t, ps[i], s.kids[ps[i]]);
      dirs := AppendDirs(b, t, dirs, ps, ps[i], cs);
      ghost var ps', up' := ps + ds, up + seq(|ds|, _ => i);
      Expand(t, ps, up, i, ds, ps', up');
      ps, up, i := ps', up', i + 1;
    }
    WorklistDone(t, ps, up);
  }

  /** The inner loop of `orderedDirs`. */
  method AppendDirs(b: Builder, ghost t: Tree, dirs: seq<Node>, ghost ps: seq<Path>, ghost p: Path, cs: seq<Node>)
    returns (dirs': seq<Node>)
    requires NodesAt(b, dirs, ps) && b.entries == t && KidsOf(b, p, cs)
    ensures NodesAt(b, dirs', ps + DirsOf(t, p, NamesOf(cs)))
  {
    dirs' := dirs;
    ghost var names := NamesOf(cs);
    for i := 0 to |cs|
      invariant NodesAt(b, dirs', ps + DirsOf(t, p, names[..i]))
    {
      assert cs[i] in cs;
      DirsOfNext(t, ps, p, names, i);
      if cs[i].isDir { dirs' := dirs' + [cs[i]]; }
    }
    assert names[..|cs|] == names;
  }
}
