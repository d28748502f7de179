/** Sizes and extents for every node, as `layout` assigns them and `totalSectors` adds them up again (create.go). */
module Placing {
  import opened Bytes
  import opened DirRecords
  import opened DirExtents
  import opened Trees
  import opened Plans
  import opened Builders
  import opened Siblings
  import opened Naming
  import opened Numbering

  // ----- Path-table size -----

  function PathTableIdent(d: Node): Str
    reads d`id, d`parent
  {
    if d.parent == null then [0] else d.id
  }

  lemma IdentIs(b: Builder, t: Tree, d: Node)
    requires Titled(b, t) && Ready(b, t, d)
    ensures PathTableIdent(d) == PtIdent(t, d.path)
  {
    if d.path.Child? {
      BelowRoot(d.path);
      assert Named(b, AllIds(t), d.path);
    }
  }

  /** The path-table entries of `ps` take `total` bytes. */
  ghost predicate TableBytes(t: Tree, ps: seq<Path>, total: nat) {
    WellFormed(t) && (forall p <- ps :: IsDirAt(t, p)) && SumSeq(PtWeights(t), ps) == total
  }

  method PathTableSize(b: Builder, ghost t: Tree, dirs: seq<Node>, ghost ps: seq<Path>) returns (total: nat)
    requires Titled(b, t) && NodesAt(b, dirs, ps) && forall p <- ps :: IsDirAt(t, p)
    ensures TableBytes(t, ps, total)
  {
    total := 0;
    for i := 0 to |dirs|
      invariant total == SumSeq(PtWeights(t), ps[..i])
    {
      assert ps[i] in ps && ps[..i + 1][..i] == ps[..i];
      IdentIs(b, t, dirs[i]);
      total := total + PtEntryLen(|PathTableIdent(dirs[i])|);
    }
    assert ps[..|dirs|] == ps;
  }

  // ----- Directory sizes -----

  /** One step of `directoryExtentSize`: where a record with this identifier length ends. */
  method AddRecord(pos: nat, idLen: nat, ghost lens: seq<nat>, ghost i: nat) returns (pos': nat)
    requires i < |lens| && pos == PackedLen(lens[..i]) && idLen == lens[i]
    ensures pos' == PackedLen(lens[..i + 1])
  {
    var rl := RecLen(idLen);
    pos' := pos;
    if pos / 2048 != (pos + rl - 1) / 2048 { pos' := (pos / 2048 + 1) * 2048; }
    pos' := pos' + rl;
    assert lens[..i + 1][..i] == lens[..i];
  }

  /** A listed child carries the identifier of its entry. */
  lemma KidTitled(b: Builder, t: Tree, p: Path, cs: seq<Node>, i: nat)
    requires Titled(b, t) && KidsOf(b, p, cs) && i < |cs|
    ensures cs[i].path == Child(p, NamesOf(cs)[i]) && cs[i].path in t && cs[i].id == Id(t, cs[i].path)
    ensures p in b.nodes && cs[i].parent == b.nodes[p]
  {
    var c := cs[i];
    assert c in cs;
    BelowRoot(c.path);
    assert Named(b, AllIds(t), c.path);
    assert b.entries[c.path] == t[c.path];
    assert Hangs(t, c.path);
  }

  /** What `directoryExtentSize` adds up for the children `cs`. */
  ghost predicate RecordsOf(cs: seq<Node>, lens: seq<nat>)
    reads cs
  {
    |lens| == |cs| + 2 && lens[0] == lens[1] == 1 && forall i | 0 <= i < |cs| :: lens[i + 2] == |cs[i].id|
  }

  lemma IdLenAt(t: Tree, p: Path, i: nat)
    requires WellFormed(t) && i < |ById(t, p)|
    ensures |RecordIdLens(t, p)| == |ById(t, p)| + 2 && Child(p, ById(t, p)[i]) in t
    ensures RecordIdLens(t, p)[i + 2] == |Id(t, Child(p, ById(t, p)[i]))|
  {
    ByIdIsOrder(t, p);
    IdsGood(t, p);
    assert ById(t, p)[i] in ById(t, p);
  }

  lemma IdLens(b: Builder, t: Tree, p: Path, cs: seq<Node>)
    requires Titled(b, t) && KidsOf(b, p, cs) && NamesOf(cs) == ById(t, p)
    ensures RecordsOf(cs, RecordIdLens(t, p))
  {
    var lens := RecordIdLens(t, p);
    forall i | 0 <= i < |cs| ensures |lens| == |cs| + 2 && lens[i + 2] == |cs[i].id| {
      IdLenAt(t, p, i);
      KidTitled(b, t, p, cs, i);
    }
  }

  method RecordsSize(cs: seq<Node>, ghost lens: seq<nat>) returns (size: u32)
    requires RecordsOf(cs, lens)
    ensures size == ExtentSize(lens) % TWO32
  {
    var pos := AddRecord(0, 1, lens, 0);
    pos := AddRecord(pos, 1, lens, 1);
    for i := 0 to |cs|
      invariant pos == PackedLen(lens[..i + 2])
    {
      pos := AddRecord(pos, |cs[i].id|, lens, i + 2);
    }
    assert lens[..|cs| + 2] == lens;
    return (pos + 2047) / 2048 * 2048 % 0x1_0000_0000;
  }

  method DirectoryExtentSize(b: Builder, ghost t: Tree, ghost s: Survey, d: Node) returns (size: u32)
    requires Titled(b, t) && Ready(b, t, d) && d.isDir && Surveyed(t, s)
    ensures size == s.len[d.path] % TWO32
  {
    assert SurveyedAt(t, s, d.path) && b.Linked(d.path);
    var cs := IdKidsInOrder(b, t, d, s);
    IdLens(b, t, d.path, cs);
    size := RecordsSize(cs, RecordIdLens(t, d.path));
  }

  // ----- Extents -----

  /** The node at `q` has the extent the plan gives it. */
  ghost predicate Sited(b: Builder, len: Weights, lba: Lbas, q: Path)
    reads b`nodes, b`repr, b.repr`extentLBA, b.repr`extentLen
  {
    && q in len && q in lba && q in b.nodes && b.nodes[q] in b.repr
    && b.nodes[q].extentLBA == lba[q] && b.nodes[q].extentLen == len[q]
  }

  ghost predicate AllSited(b: Builder, len: Weights, lba: Lbas, fs: seq<Path>)
    reads b`nodes, b`repr, b.repr`extentLBA, b.repr`extentLen
  {
    forall f <- fs :: Sited(b, len, lba, f)
  }

  /** Every size fits, so that no 32-bit rounding wraps. */
  ghost predicate Roomy(s: Survey) {
    && s.len.Keys == s.w.Keys && (forall p <- s.len :: s.len[p] <= 0xFFFF_F800)
    && forall p {:trigger RoomyAt(s, p)} | p in s.len :: RoomyAt(s, p)
  }

  ghost predicate RoomyAt(s: Survey, p: Path)
    requires p in s.len && p in s.w
  {
    s.len[p] <= 0xFFFF_F800 && s.w[p] == Sectors(s.len[p])
  }

  /** `next += sectorsFor(len)`. */
  method Advance(next: u32, len: u32) returns (next': u32)
    ensures len <= 0xFFFF_F800 && next + Sectors(len) < TWO32 ==> next' == next + Sectors(len)
  {
    SectorsForExact(len);
    var n := SectorsFor(len);
    next' := (next + n) % 0x1_0000_0000;
  }

  /** Gives one node its extent at the cursor. */
  method Site(b: Builder, ghost s: Survey, ghost lba: Lbas, n: Node, len: u32, next: u32) returns (next': u32)
    requires Filed(b) && n.path in b.nodes && b.nodes[n.path] == n
    requires Roomy(s) && n.path in s.len && len == s.len[n.path]
    requires n.path in lba && next == lba[n.path] && lba[n.path] + s.w[n.path] < TWO32
    modifies n`extentLBA, n`extentLen
    ensures Sited(b, s.len, lba, n.path) && next' == lba[n.path] + s.w[n.path]
  {
    assert RoomyAt(s, n.path);
    n.extentLen := len;
    n.extentLBA := next;
    next' := Advance(next, len);
  }

  lemma NextSite(w: Weights, ps: seq<Path>, lba: Lbas, start: int, end: int, i: nat)
    requires i < |ps| && Consecutive(w, ps, lba, start, end)
    ensures ps[i] in ps && ps[i] in lba && lba[ps[i]] == start + SumSeq(w, ps[..i])
    ensures start + SumSeq(w, ps[..i + 1]) == lba[ps[i]] + w[ps[i]] <= end
  {
    assert ps[i] in ps && LbaIs(w, ps, lba, start, i) && ps[..i + 1][..i] == ps[..i];
    ConsecutiveDisjoint(w, ps, lba, start, end, i, i);
  }

  /** The extents of nodes: where, and how many bytes. */
  type Placement = map<Node, (u32, u32)>

  /** The extents of all nodes at the moment. */
  ghost function Extents(b: Builder): (now: Placement)
    ensures now.Keys == b.repr && forall m | m in b.repr :: now[m] == (m.extentLBA, m.extentLen)
    reads b`repr, b.repr`extentLBA, b.repr`extentLen
  {
    map m | m in b.repr :: (m.extentLBA, m.extentLen)
  }

  /** In `now`, all nodes but those at `fs` have the extents they had in `was`. */
  ghost predicate SameBut(now: Placement, was: Placement, fs: seq<Path>) {
    forall m {:trigger SameAt(now, was, fs, m)} | m in now :: SameAt(now, was, fs, m)
  }

  ghost predicate SameAt(now: Placement, was: Placement, fs: seq<Path>, m: Node)
    requires m in now
  {
    m.path in fs || (m in was && was[m] == now[m])
  }

  /** In `now`, the nodes at `fs` have the extents planned for them. */
  ghost predicate PlacedIn(now: Placement, nodes: map<Path, Node>, len: Weights, lba: Lbas, fs: seq<Path>) {
    forall f {:trigger PlacedAt(now, nodes, len, lba, f)} | f in fs :: PlacedAt(now, nodes, len, lba, f)
  }

  ghost predicate PlacedAt(now: Placement, nodes: map<Path, Node>, len: Weights, lba: Lbas, f: Path) {
    && f in len && f in lba && f in nodes && nodes[f] in now && nodes[f].path == f
    && now[nodes[f]].0 == lba[f] && now[nodes[f]].1 == len[f]
  }

  lemma SitedMeans(b: Builder, len: Weights, lba: Lbas, fs: seq<Path>)
    requires Filed(b)
    ensures AllSited(b, len, lba, fs) <==> PlacedIn(Extents(b), b.nodes, len, lba, fs)
  {
    forall f | f in fs ensures Sited(b, len, lba, f) <==> PlacedAt(Extents(b), b.nodes, len, lba, f) {}
  }

  /** Placing `these` leaves what is placed in place. */
  lemma StillPlaced(was: Placement, mid: Placement, now: Placement, nodes: map<Path, Node>, len: Weights, lba: Lbas,
                    done: seq<Path>, these: seq<Path>, done': seq<Path>)
    requires PlacedIn(mid, nodes, len, lba, done) && SameBut(mid, was, done) && NoneIn(done, these)
    requires PlacedIn(now, nodes, len, lba, these) && SameBut(now, mid, these) && mid.Keys == now.Keys
    requires done' == done + these
    ensures PlacedIn(now, nodes, len, lba, done') && SameBut(now, was, done')
  {
    forall m | m in now ensures SameAt(now, was, done', m) {
      assert SameAt(now, mid, these, m) && SameAt(mid, was, done, m);
    }
    forall f | f in done' ensures PlacedAt(now, nodes, len, lba, f) {
      if f in done {
        assert PlacedAt(mid, nodes, len, lba, f) && f !in these;
        assert SameAt(now, mid, these, nodes[f]);
      }
    }
  }

  /** The i-th directory in turn. */
  method PlaceDir(b: Builder, ghost t: Tree, ghost s: Survey, d: Node, ghost ps: seq<Path>, ghost lba: Lbas,
                  ghost i: nat, next: u32)
    returns (next': u32)
    requires Titled(b, t) && Ready(b, t, d) && d.isDir && Surveyed(t, s) && Roomy(s)
    requires d.path in s.w && d.path in lba && next == lba[d.path] && lba[d.path] + s.w[d.path] < TWO32
    requires Distinct(ps) && i < |ps| && d.path == ps[i] && forall j | 0 <= j < i :: Sited(b, s.len, lba, ps[j])
    modifies d`extentLBA, d`extentLen
    ensures Titled(b, t) && next' == lba[d.path] + s.w[d.path] && forall j | 0 <= j <= i :: Sited(b, s.len, lba, ps[j])
  {
    var size := DirectoryExtentSize(b, t, s, d);
    assert RoomyAt(s, d.path);
    next' := Site(b, s, lba, d, size, next);
    assert NewAt(ps, i);
    forall j | 0 <= j < i ensures Sited(b, s.len, lba, ps[j]) { assert ps[j] == ps[..i][j]; }
  }

  method PlaceDirs(b: Builder, ghost t: Tree, ghost s: Survey, dirs: seq<Node>, ghost ps: seq<Path>, ghost lba: Lbas,
                   start: u32, ghost end: int)
    returns (next: u32)
    requires Titled(b, t) && NodesAt(b, dirs, ps) && Surveyed(t, s) && Roomy(s)
    requires Distinct(ps) && forall p <- ps :: IsDirAt(t, p)
    requires Consecutive(s.w, ps, lba, start, end) && end < TWO32
    modifies b.repr`extentLBA, b.repr`extentLen
    ensures Titled(b, t) && next == end && forall p <- ps :: Sited(b, s.len, lba, p)
  {
    next := start;
    for i := 0 to |dirs|
      invariant Titled(b, t) && next == start + SumSeq(s.w, ps[..i])
      invariant forall j | 0 <= j < i :: Sited(b, s.len, lba, ps[j])
    {
      NextSite(s.w, ps, lba, start, end, i);
      assert b.Linked(ps[i]);
      next := PlaceDir(b, t, s, dirs[i], ps, lba, i, next);
    }
    assert ps[..|dirs|] == ps;
  }

  // ----- File extents -----

  predicate NoneIn(a: seq<Path>, b: seq<Path>) { forall f | f in a :: f !in b }

  /** How the files below a directory divide among its children: `done[i]` are those of the first i children, whose
      extents end at sector `at[i]`. */
  ghost predicate Shares(s: Survey, lba: Lbas, p: Path, done: seq<seq<Path>>, at: seq<int>)
    requires p in s.kids
  {
    && |done| == |at| == |s.kids[p]| + 1 && done[0] == []
    && forall i {:trigger Share(s, lba, p, done, at, i)} | 0 <= i < |s.kids[p]| :: Share(s, lba, p, done, at, i)
  }

  ghost predicate Share(s: Survey, lba: Lbas, p: Path, done: seq<seq<Path>>, at: seq<int>, i: nat)
    requires p in s.kids && i < |s.kids[p]| && |done| == |at| == |s.kids[p]| + 1
  {
    var q := Child(p, s.kids[p][i]);
    && q in s.files && done[i + 1] == done[i] + s.files[q]
    && NoneIn(done[i], s.files[q])
    && Consecutive(s.w, s.files[q], lba, at[i], at[i + 1])
    && at[i + 1] <= at[|s.kids[p]|]
  }

  /** The files at and below the children `ks` of `p`. */
  function Gather(s: Survey, p: Path, ks: seq<Text>): seq<Path>
    requires forall k <- ks :: Child(p, k) in s.files
  {
    if ks == [] then []
    else
      assert ks[|ks| - 1] in ks;
      Gather(s, p, ks[..|ks| - 1]) + s.files[Child(p, ks[|ks| - 1])]
  }

  lemma {:induction false} GatherIsFilesOf(t: Tree, s: Survey, p: Path, ks: seq<Text>)
    requires Surveyed(t, s) && WellFormed(t) && Lists(t, IdListing(t))
    requires (forall k <- ks :: Child(p, k) in t) && forall k <- ks :: Child(p, k) in s.files
    ensures Gather(s, p, ks) == FilesOf(t, IdListing(t), p, ks)
  {
    if ks != [] {
      assert ks[|ks| - 1] in ks;
      assert SurveyedAt(t, s, Child(p, ks[|ks| - 1]));
      GatherIsFilesOf(t, s, p, ks[..|ks| - 1]);
    }
  }

  /** A directory's files are those of its children, each once. */
  lemma GatherAll(t: Tree, s: Survey, p: Path)
    requires Surveyed(t, s) && IsDirAt(t, p)
    ensures (forall k <- s.kids[p] :: Child(p, k) in s.files) && Gather(s, p, s.kids[p]) == s.files[p]
            && Distinct(s.files[p])
  {
    assert SurveyedAt(t, s, p);
    ByIdDistinct(t, p);
    GatherIsFilesOf(t, s, p, s.kids[p]);
    FilesAtDistinct(t, IdListing(t), p);
  }

  lemma GatherNext(s: Survey, p: Path, ks: seq<Text>, i: nat)
    requires i < |ks| && forall k <- ks :: Child(p, k) in s.files
    ensures ks[i] in ks && Gather(s, p, ks[..i + 1]) == Gather(s, p, ks[..i]) + s.files[Child(p, ks[i])]
  {
    assert ks[..i + 1][..i] == ks[..i];
  }

  lemma {:induction false} GatherPrefix(s: Survey, p: Path, ks: seq<Text>, i: nat) returns (rest: seq<Path>)
    requires i <= |ks| && forall k <- ks :: Child(p, k) in s.files
    ensures Gather(s, p, ks) == Gather(s, p, ks[..i]) + rest
    decreases |ks| - i
  {
    if i == |ks| {
      assert ks[..i] == ks;
      rest := [];
    } else {
      rest := GatherPrefix(s, p, ks, i + 1);
      GatherNext(s, p, ks, i);
      Assoc(Gather(s, p, ks[..i]), s.files[Child(p, ks[i])], rest);
      rest := s.files[Child(p, ks[i])] + rest;
    }
  }

  lemma PartsApart(a: seq<Path>, b: seq<Path>, rest: seq<Path>)
    requires Distinct(a + b + rest)
    ensures NoneIn(a, b)
  {
    forall f | f in a ensures f !in b {
      var x :| 0 <= x < |a| && a[x] == f;
      if f in b {
        var y :| 0 <= y < |b| && b[y] == f;
        DistinctAt(a + b + rest, x, |a| + y);
      }
    }
  }

  /** The three stretches of a directory's files around child i. */
  lemma ChildRange(s: Survey, lba: Lbas, here: seq<Path>, child: seq<Path>, rest: seq<Path>, start: int, end: int)
    requires Consecutive(s.w, here + child + rest, lba, start, end)
    ensures (forall f <- here :: f in s.w) && forall f <- here + child :: f in s.w
    ensures Consecutive(s.w, child, lba, start + SumSeq(s.w, here), start + SumSeq(s.w, here + child))
    ensures start + SumSeq(s.w, here + child) <= end
  {
    var last := ConsecutiveSplit(s.w, here + child, rest, lba, start, end);
    var mid := ConsecutiveSplit(s.w, here, child, lba, start, last);
  }

  /** Where the first i children's files end. */
  function EndOf(w: Weights, fs: seq<Path>, start: int): int {
    if forall f <- fs :: f in w then start + SumSeq(w, fs) else start
  }

  lemma DirShares(t: Tree, s: Survey, p: Path, lba: Lbas, start: int, end: int)
    returns (done: seq<seq<Path>>, at: seq<int>)
    requires Surveyed(t, s) && IsDirAt(t, p) && Consecutive(s.w, s.files[p], lba, start, end)
    ensures Shares(s, lba, p, done, at) && at[0] == start && done[|s.kids[p]|] == s.files[p] && at[|s.kids[p]|] == end
  {
    var ks := s.kids[p];
    GatherAll(t, s, p);
    done := seq(|ks| + 1, i requires 0 <= i <= |ks| => Gather(s, p, ks[..i]));
    at := seq(|ks| + 1, i requires 0 <= i <= |ks| => EndOf(s.w, Gather(s, p, ks[..i]), start));
    assert ks[..0] == [] && ks[..|ks|] == ks;
    forall i | 0 <= i < |ks| ensures Share(s, lba, p, done, at, i) { OneShare(s, p, lba, start, end, done, at, i); }
  }

  lemma OneShare(s: Survey, p: Path, lba: Lbas, start: int, end: int, done: seq<seq<Path>>, at: seq<int>, i: nat)
    requires p in s.kids && i < |s.kids[p]| && (forall k <- s.kids[p] :: Child(p, k) in s.files)
    requires Consecutive(s.w, Gather(s, p, s.kids[p]), lba, start, end) && Distinct(Gather(s, p, s.kids[p]))
    requires |done| == |at| == |s.kids[p]| + 1 && at[|s.kids[p]|] == end
    requires done[i] == Gather(s, p, s.kids[p][..i]) && done[i + 1] == Gather(s, p, s.kids[p][..i + 1])
    requires at[i] == EndOf(s.w, done[i], start) && at[i + 1] == EndOf(s.w, done[i + 1], start)
    ensures Share(s, lba, p, done, at, i)
  {
    var ks := s.kids[p];
    GatherNext(s, p, ks, i);
    var rest := GatherPrefix(s, p, ks, i + 1);
    ShareParts(s, lba, done[i], s.files[Child(p, ks[i])], rest, start, end);
  }

  lemma ShareParts(s: Survey, lba: Lbas, here: seq<Path>, child: seq<Path>, rest: seq<Path>, start: int, end: int)
    requires Consecutive(s.w, here + child + rest, lba, start, end) && Distinct(here + child + rest)
    ensures NoneIn(here, child) && EndOf(s.w, here + child, start) <= end
    ensures Consecutive(s.w, child, lba, EndOf(s.w, here, start), EndOf(s.w, here + child, start))
  {
    PartsApart(here, child, rest);
    ChildRange(s, lba, here, child, rest, start, end);
  }

  lemma FileShare(t: Tree, s: Survey, p: Path)
    requires Surveyed(t, s) && IsFile(t, p)
    ensures s.files[p] == [p] && s.len[p] == |t[p].data|
  {
    assert SurveyedAt(t, s, p);
  }

  method Place(b: Builder, ghost t: Tree, ghost s: Survey, ghost lba: Lbas, d: Node, start: u32, ghost end: int,
               ghost height: nat)
    returns (next: u32)
    requires Titled(b, t) && Ready(b, t, d) && d.isDir && Surveyed(t, s) && Roomy(s)
    requires Consecutive(s.w, s.files[d.path], lba, start, end) && end < TWO32
    requires Shallow(b.nodes.Keys, Level(d.path) + height)
    modifies b.repr`extentLBA, b.repr`extentLen
    ensures Titled(b, t) && next == end && PlacedIn(Extents(b), b.nodes, s.len, lba, s.files[d.path])
    ensures SameBut(Extents(b), old(Extents(b)), s.files[d.path])
    decreases height, 4
  {
    assert b.Linked(d.path);
    var cs := IdKidsInOrder(b, t, d, s);
    ghost var done, at := DirShares(t, s, d.path, lba, start, end);
    next := PlaceKids(b, t, s, lba, d.path, cs, start, done, at, Extents(b), height);
  }

  /** Child i's share of its directory's files. */
  lemma KidShare(b: Builder, s: Survey, p: Path, lba: Lbas, cs: seq<Node>, done: seq<seq<Path>>, at: seq<int>, i: nat)
    requires KidsOf(b, p, cs) && p in s.kids && NamesOf(cs) == s.kids[p] && Shares(s, lba, p, done, at) && i < |cs|
    ensures IsKid(b, p, cs[i]) && cs[i].path in s.files && done[i + 1] == done[i] + s.files[cs[i].path]
    ensures NoneIn(done[i], s.files[cs[i].path]) && at[i + 1] <= at[|cs|]
    ensures Consecutive(s.w, s.files[cs[i].path], lba, at[i], at[i + 1])
  {
    assert cs[i] in cs && Share(s, lba, p, done, at, i);
  }

  /** The loop of `place` over the sorted children. */
  method PlaceKids(b: Builder, ghost t: Tree, ghost s: Survey, ghost lba: Lbas, ghost p: Path, cs: seq<Node>,
                   start: u32, ghost done: seq<seq<Path>>, ghost at: seq<int>, ghost was: Placement,
                   ghost height: nat)
    returns (next: u32)
    requires Titled(b, t) && KidsOf(b, p, cs) && Surveyed(t, s) && Roomy(s)
    requires p in s.kids && NamesOf(cs) == s.kids[p] && Shares(s, lba, p, done, at) && SameBut(Extents(b), was, done[0])
    requires start == at[0] && at[|cs|] < TWO32
    requires Shallow(b.nodes.Keys, Level(p) + height)
    modifies b.repr`extentLBA, b.repr`extentLen
    ensures Titled(b, t) && next == at[|cs|]
    ensures PlacedIn(Extents(b), b.nodes, s.len, lba, done[|cs|]) && SameBut(Extents(b), was, done[|cs|])
    decreases height, 3
  {
    next := start;
    for i := 0 to |cs|
      invariant Titled(b, t) && next == at[i]
      invariant PlacedIn(Extents(b), b.nodes, s.len, lba, done[i]) && SameBut(Extents(b), was, done[i])
    {
      next := PlaceNext(b, t, s, lba, p, cs, i, next, done, at, was, height);
    }
  }

  /** Child i, after those before it. */
  method PlaceNext(b: Builder, ghost t: Tree, ghost s: Survey, ghost lba: Lbas, ghost p: Path, cs: seq<Node>, i: nat,
                   start: u32, ghost done: seq<seq<Path>>, ghost at: seq<int>, ghost was: Placement,
                   ghost height: nat)
    returns (next: u32)
    requires Titled(b, t) && KidsOf(b, p, cs) && i < |cs| && Surveyed(t, s) && Roomy(s)
    requires p in s.kids && NamesOf(cs) == s.kids[p] && Shares(s, lba, p, done, at)
    requires start == at[i] && at[|cs|] < TWO32
    requires PlacedIn(Extents(b), b.nodes, s.len, lba, done[i]) && SameBut(Extents(b), was, done[i])
    requires Shallow(b.nodes.Keys, Level(p) + height)
    modifies b.repr`extentLBA, b.repr`extentLen
    ensures Titled(b, t) && next == at[i + 1]
    ensures PlacedIn(Extents(b), b.nodes, s.len, lba, done[i + 1]) && SameBut(Extents(b), was, done[i + 1])
    decreases height, 2
  {
    KidShare(b, s, p, lba, cs, done, at, i);
    next := PlaceAfter(b, t, s, lba, p, cs[i], start, at[i + 1], done[i], done[i + 1], was, height);
  }

  /** A child, after those whose files are `done`. */
  method PlaceAfter(b: Builder, ghost t: Tree, ghost s: Survey, ghost lba: Lbas, ghost p: Path, c: Node, start: u32,
                    ghost end: int, ghost done: seq<Path>, ghost done': seq<Path>, ghost was: Placement,
                    ghost height: nat)
    returns (next: u32)
    requires Titled(b, t) && IsKid(b, p, c) && Surveyed(t, s) && Roomy(s)
    requires Consecutive(s.w, s.files[c.path], lba, start, end) && end < TWO32
    requires done' == done + s.files[c.path] && NoneIn(done, s.files[c.path])
    requires PlacedIn(Extents(b), b.nodes, s.len, lba, done) && SameBut(Extents(b), was, done)
    requires Shallow(b.nodes.Keys, Level(p) + height)
    modifies b.repr`extentLBA, b.repr`extentLen
    ensures Titled(b, t) && next == end
    ensures PlacedIn(Extents(b), b.nodes, s.len, lba, done') && SameBut(Extents(b), was, done')
    decreases height, 1
  {
    ghost var mid := Extents(b);
    next := PlaceChild(b, t, s, lba, p, c, start, end, height);
    StillPlaced(was, mid, Extents(b), b.nodes, s.len, lba, done, s.files[c.path], done');
  }

  method PlaceChild(b: Builder, ghost t: Tree, ghost s: Survey, ghost lba: Lbas, ghost p: Path, c: Node, start: u32,
                    ghost end: int, ghost height: nat)
    returns (next: u32)
    requires Titled(b, t) && IsKid(b, p, c) && Surveyed(t, s) && Roomy(s)
    requires Consecutive(s.w, s.files[c.path], lba, start, end) && end < TWO32
    requires Shallow(b.nodes.Keys, Level(p) + height)
    modifies b.repr`extentLBA, b.repr`extentLen
    ensures Titled(b, t) && next == end && PlacedIn(Extents(b), b.nodes, s.len, lba, s.files[c.path])
    ensures SameBut(Extents(b), old(Extents(b)), s.files[c.path])
    decreases height, 0
  {
    assert Level(c.path) == Level(p) + 1;
    if c.isDir {
      next := Place(b, t, s, lba, c, start, end, height - 1);
    } else {
      next := PlaceFile(b, t, s, lba, c, start, end);
    }
  }

  method PlaceFile(b: Builder, ghost t: Tree, ghost s: Survey, ghost lba: Lbas, c: Node, start: u32, ghost end: int)
    returns (next: u32)
    requires Ready(b, t, c) && !c.isDir && Surveyed(t, s) && Roomy(s)
    requires Consecutive(s.w, s.files[c.path], lba, start, end) && end < TWO32
    modifies c`extentLBA, c`extentLen
    ensures next == end && PlacedIn(Extents(b), b.nodes, s.len, lba, s.files[c.path])
    ensures SameBut(Extents(b), old(Extents(b)), s.files[c.path])
  {
    assert b.Linked(c.path);
    FileShare(t, s, c.path);
    NextSite(s.w, [c.path], lba, start, end, 0);
    assert RoomyAt(s, c.path);
    next := Site(b, s, lba, c, |c.data| % 0x1_0000_0000, start);
    SitedMeans(b, s.len, lba, s.files[c.path]);
  }

  // ----- totalSectors -----

  /** `end` of `totalSectors`: raises the running maximum to the end of an extent. */
  method Reach(max: u32, lba: u32, len: u32) returns (max': u32)
    ensures len <= 0xFFFF_F800 && lba + Sectors(len) < TWO32 ==> max' == Max(max, lba + Sectors(len))
  {
    var e := Advance(lba, len);
    return if e > max then e else max;
  }

  /** The same over an extent that starts where the maximum stands. */
  method ReachNode(b: Builder, ghost s: Survey, ghost lba: Lbas, n: Node, max: u32) returns (max': u32)
    requires n.path in b.nodes && b.nodes[n.path] == n && Sited(b, s.len, lba, n.path) && Roomy(s)
    requires max == lba[n.path] && lba[n.path] + s.w[n.path] < TWO32
    ensures max' == lba[n.path] + s.w[n.path]
  {
    assert RoomyAt(s, n.path);
    max' := Reach(max, n.extentLBA, n.extentLen);
  }

  method WalkDirs(b: Builder, ghost s: Survey, dirs: seq<Node>, ghost ps: seq<Path>, ghost lba: Lbas, start: u32,
                  ghost end: int)
    returns (max: u32)
    requires Filed(b) && NodesAt(b, dirs, ps) && Roomy(s)
    requires Consecutive(s.w, ps, lba, start, end) && end < TWO32 && forall p <- ps :: Sited(b, s.len, lba, p)
    ensures max == end
  {
    max := start;
    for i := 0 to |dirs|
      invariant max == start + SumSeq(s.w, ps[..i])
    {
      NextSite(s.w, ps, lba, start, end, i);
      max := ReachNode(b, s, lba, dirs[i], max);
    }
    assert ps[..|dirs|] == ps;
  }

  method Walk(b: Builder, ghost t: Tree, ghost s: Survey, ghost lba: Lbas, d: Node, start: u32, ghost end: int,
              ghost height: nat)
    returns (max: u32)
    requires Titled(b, t) && Ready(b, t, d) && d.isDir && Surveyed(t, s) && Roomy(s)
    requires Consecutive(s.w, s.files[d.path], lba, start, end) && end < TWO32
    requires Shallow(b.nodes.Keys, Level(d.path) + height)
    requires AllSited(b, s.len, lba, s.files[d.path])
    ensures max == end
    decreases height, 3
  {
    assert b.Linked(d.path);
    var cs := IdKidsInOrder(b, t, d, s);
    ghost var done, at := DirShares(t, s, d.path, lba, start, end);
    max := WalkKids(b, t, s, lba, d.path, cs, start, done, at, height);
  }

  /** The loop of `walk` over the sorted children. */
  method WalkKids(b: Builder, ghost t: Tree, ghost s: Survey, ghost lba: Lbas, ghost p: Path, cs: seq<Node>,
                  start: u32, ghost done: seq<seq<Path>>, ghost at: seq<int>, ghost height: nat)
    returns (max: u32)
    requires Titled(b, t) && KidsOf(b, p, cs) && IsDirAt(b.entries, p) && Surveyed(t, s) && Roomy(s)
    requires p in s.kids && NamesOf(cs) == s.kids[p] && Shares(s, lba, p, done, at)
    requires start == at[0] && at[|cs|] < TWO32
    requires Shallow(b.nodes.Keys, Level(p) + height)
    requires p in s.files && AllSited(b, s.len, lba, s.files[p])
    ensures max == at[|cs|]
    decreases height, 2
  {
    max := start;
    for i := 0 to |cs|
      invariant max == at[i]
    {
      max := WalkNext(b, t, s, lba, p, cs, i, max, done, at, height);
    }
  }

  /** Child i, after those before it. */
  method WalkNext(b: Builder, ghost t: Tree, ghost s: Survey, ghost lba: Lbas, ghost p: Path, cs: seq<Node>, i: nat,
                  start: u32, ghost done: seq<seq<Path>>, ghost at: seq<int>, ghost height: nat)
    returns (max: u32)
    requires Titled(b, t) && KidsOf(b, p, cs) && IsDirAt(b.entries, p) && i < |cs| && Surveyed(t, s) && Roomy(s)
    requires p in s.kids && NamesOf(cs) == s.kids[p] && Shares(s, lba, p, done, at)
    requires start == at[i] && at[|cs|] < TWO32
    requires Shallow(b.nodes.Keys, Level(p) + height)
    requires p in s.files && AllSited(b, s.len, lba, s.files[p])
    ensures max == at[i + 1]
    decreases height, 1
  {
    KidShare(b, s, p, lba, cs, done, at, i);
    KidFiles(t, s, p, cs[i].path);
    max := WalkChild(b, t, s, lba, p, cs[i], start, at[i + 1], height);
  }

  /** A child's files are among its directory's. */
  lemma KidFiles(t: Tree, s: Survey, p: Path, q: Path)
    requires Surveyed(t, s) && q in t && q.Child? && q.parent == p && IsDirAt(t, p)
    ensures forall f <- s.files[q] :: f in s.files[p]
  {
    assert SurveyedAt(t, s, p) && SurveyedAt(t, s, q);
    forall f | f in s.files[q] ensures f in s.files[p] {
      FilesAtExact(t, IdListing(t), q, f);
      BelowChildIsBelow(p, q.name, f);
      FilesAtExact(t, IdListing(t), p, f);
    }
  }

  method WalkChild(b: Builder, ghost t: Tree, ghost s: Survey, ghost lba: Lbas, ghost p: Path, c: Node, start: u32,
                   ghost end: int, ghost height: nat)
    returns (max: u32)
    requires Titled(b, t) && IsKid(b, p, c) && Surveyed(t, s) && Roomy(s)
    requires Consecutive(s.w, s.files[c.path], lba, start, end) && end < TWO32
    requires Shallow(b.nodes.Keys, Level(p) + height)
    requires AllSited(b, s.len, lba, s.files[c.path])
    ensures max == end
    decreases height, 0
  {
    assert Level(c.path) == Level(p) + 1;
    if c.isDir {
      max := Walk(b, t, s, lba, c, start, end, height - 1);
    } else {
      max := WalkFile(b, t, s, lba, c, start, end);
    }
  }

  method WalkFile(b: Builder, ghost t: Tree, ghost s: Survey, ghost lba: Lbas, c: Node, start: u32, ghost end: int)
    returns (max: u32)
    requires Ready(b, t, c) && !c.isDir && Surveyed(t, s) && Roomy(s)
    requires Consecutive(s.w, s.files[c.path], lba, start, end) && end < TWO32
    requires AllSited(b, s.len, lba, s.files[c.path])
    ensures max == end
  {
    assert b.Linked(c.path);
    FileShare(t, s, c.path);
    NextSite(s.w, [c.path], lba, start, end, 0);
    max := ReachNode(b, s, lba, c, start);
  }
}
