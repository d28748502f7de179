/** `layout` as a whole: from a tree of nodes to identifiers, directory numbers and extents (create.go). */
module Layouts {
  import opened Bytes
  import opened Trees
  import opened Plans
  import opened Builders
  import opened Siblings
  import opened Naming
  import opened Numbering
  import opened Placing

  ghost predicate Indexed(dirs: seq<Node>)
    reads dirs`dirIndex
  {
    forall i | 0 <= i < |dirs| :: dirs[i].dirIndex == i + 1
  }

  /** `d.dirIndex = i + 1` for every directory. */
  method NumberDirs(b: Builder, ghost t: Tree, dirs: seq<Node>, ghost ps: seq<Path>)
    requires Titled(b, t) && NodesAt(b, dirs, ps) && Distinct(ps)
    modifies b.repr`dirIndex
    ensures Titled(b, t) && Indexed(dirs)
  {
    for i := 0 to |dirs|
      invariant Titled(b, t) && forall j | 0 <= j < i :: dirs[j].dirIndex == j + 1
    {
      assert NewAt(ps, i);
      assert forall j | 0 <= j < i :: dirs[j].path == ps[j] && ps[j] == ps[..i][j];
      NumberDir(b, t, dirs[i], i + 1);
    }
  }

  method NumberDir(b: Builder, ghost t: Tree, d: Node, i: nat)
    requires Titled(b, t)
    modifies d`dirIndex
    ensures Titled(b, t) && d.dirIndex == i
  {
    d.dirIndex := i;
  }

  // ----- Plans -----

  /** A tree's numbered directories and allocation: directories from sector `start` to `mid`, files from there to
      `total`. */
  datatype Plan = Plan(s: Survey, dirs: seq<Path>, up: seq<nat>, lba: Lbas, ptBytes: nat, mLBA: int, start: int,
                       mid: int, total: int)

  /** Where the Type-M table and the first directory go. */
  ghost predicate Tables(ptBytes: nat, mLBA: int, start: int) {
    ptBytes <= 0xFFFF_F800 && mLBA == PT_L + Sectors(ptBytes) && start == mLBA + Sectors(ptBytes)
  }

  /** What laying out the nodes needs to know of a plan. */
  ghost predicate Plots(t: Tree, pl: Plan) {
    && WellFormed(t) && pl.lba.Keys == t.Keys && Surveyed(t, pl.s) && Roomy(pl.s) && Root in pl.s.files
    && |pl.up| == |pl.dirs| > 0 && pl.dirs[0] == Root && pl.up[0] == 0
    && (forall i | 0 < i < |pl.dirs| :: HungAt(pl.dirs, pl.up, i))
    && Distinct(pl.dirs) && (forall p :: p in pl.dirs <==> IsDirAt(t, p))
       && (forall p :: p in pl.s.files[Root] <==> IsFile(t, p))
    && Consecutive(pl.s.w, pl.dirs, pl.lba, pl.start, pl.mid)
       && Consecutive(pl.s.w, pl.s.files[Root], pl.lba, pl.mid, pl.total)
    && pl.start <= pl.mid <= pl.total < TWO32 && Tables(pl.ptBytes, pl.mLBA, pl.start)
    && TableBytes(t, pl.dirs, pl.ptBytes)
  }

  /** `pl` is the plan of a tree that fits. */
  ghost predicate IsPlan(t: Tree, pl: Plan) {
    Planned(t, pl.dirs, pl.up, pl.lba) && Plots(t, pl) && pl.ptBytes == PtBytes(t) && pl.total == TotalNeeded(t)
  }

  lemma FitsRoomy(t: Tree, s: Survey)
    requires Fits(t) && Surveyed(t, s)
    ensures Roomy(s) && s.w == SectorWeights(t)
  {
    forall p | p in t ensures RoomyAt(s, p) && s.w[p] == SectorWeights(t)[p] {
      assert SurveyedAt(t, s, p);
    }
  }

  /** The two stretches of a plan: directories, then files. */
  lemma PlanParts(t: Tree, s: Survey, ps: seq<Path>, up: seq<nat>, lba: Lbas) returns (mid: int)
    requires Planned(t, ps, up, lba) && Surveyed(t, s)
    ensures Root in s.files && Roomy(s)
    ensures Consecutive(s.w, ps, lba, DataStart(t), mid) && Consecutive(s.w, s.files[Root], lba, mid, TotalNeeded(t))
    ensures forall p :: p in s.files[Root] <==> IsFile(t, p)
    ensures DataStart(t) <= mid <= TotalNeeded(t)
  {
    FitsRoomy(t, s);
    AllFilesOnce(t);
    assert SurveyedAt(t, s, Root);
    mid := ConsecutiveSplit(s.w, ps, AllFilesOf(t), lba, DataStart(t), TotalNeeded(t));
  }

  lemma PlanFor(t: Tree, s: Survey, ps: seq<Path>, up: seq<nat>) returns (pl: Plan)
    requires Fits(t) && Numbered(t, ps, up) && Surveyed(t, s)
    ensures IsPlan(t, pl) && pl.s == s && pl.dirs == ps && pl.up == up
  {
    var lba := PlanExists(t, ps, up);
    var mid := PlanParts(t, s, ps, up, lba);
    PtBytesInOrder(t, ps, up);
    pl := Plan(s, ps, up, lba, PtBytes(t), PT_L + Sectors(PtBytes(t)), DataStart(t), mid, TotalNeeded(t));
  }

  /** Everything `layout` establishes: each node has its identifier, its parent, its extent and, if a directory, its
      number, following the plan. */
  ghost predicate LaidOut(b: Builder, t: Tree, pl: Plan, dirs: seq<Node>)
    reads b`nodes, b`repr, b`entries, b`pathTableMLBA, dirs`dirIndex
    reads b.repr`children, b.repr`id, b.repr`parent, b.repr`extentLBA, b.repr`extentLen
  {
    && Titled(b, t) && Plots(t, pl)
    && NodesAt(b, dirs, pl.dirs) && Indexed(dirs)
    && (forall p <- t :: Sited(b, pl.s.len, pl.lba, p))
    && b.pathTableMLBA == pl.mLBA
  }

  lemma RootReady(b: Builder, t: Tree)
    requires Titled(b, t)
    ensures Ready(b, t, b.root) && b.root.path == Root && b.root.isDir
  {
    assert b.Linked(Root);
  }

  // ----- layout -----

  /** The first half: identifiers and directory numbers. */
  method NameAndNumber(b: Builder, ghost t: Tree, ghost s: Survey)
    returns (dirs: seq<Node>, ghost ps: seq<Path>, ghost up: seq<nat>)
    requires b.Valid() && b.Unassigned() && b.entries == t && Surveyed(t, s)
    modifies b.repr`id, b.repr`parent, b.repr`dirIndex
    ensures Titled(b, t) && NodesAt(b, dirs, ps) && Indexed(dirs) && Numbered(t, ps, up)
  {
    ValidFiled(b);
    AllIdsOf(t);
    AssignIdentifiers(b, t, b.root, null, AllIds(t), Height(t));
    dirs, ps, up := OrderedDirs(b, t, s);
    NumberDirs(b, t, dirs, ps);
  }

  /** Where the Type-M table and the first directory go, in the source's arithmetic. */
  method TablePlaces(ptBytes: nat, ghost m: int, ghost start: int) returns (mLBA: u32, next: u32)
    requires Tables(ptBytes, m, start) && start < TWO32
    ensures mLBA == m && next == start
  {
    mLBA := Advance(PT_L, ptBytes % 0x1_0000_0000);
    next := Advance(mLBA, ptBytes % 0x1_0000_0000);
  }

  /** The end of the Type-M table. */
  method TableEnd(mLBA: u32, ptBytes: nat, ghost start: int) returns (end: u32)
    requires Tables(ptBytes, mLBA, start) && start < TWO32
    ensures end == start
  {
    end := Advance(mLBA, ptBytes % 0x1_0000_0000);
  }

  /** Directory extents and then file extents. */
  method PlaceAll(b: Builder, ghost t: Tree, ghost pl: Plan, dirs: seq<Node>, start: u32, ghost height: nat)
    requires Titled(b, t) && NodesAt(b, dirs, pl.dirs) && Indexed(dirs) && Plots(t, pl) && start == pl.start
             && b.pathTableMLBA == pl.mLBA
    requires Shallow(b.nodes.Keys, height)
    modifies b.repr`extentLBA, b.repr`extentLen
    ensures LaidOut(b, t, pl, dirs)
  {
    var next := PlaceDirs(b, t, pl.s, dirs, pl.dirs, pl.lba, start, pl.mid);
    ghost var mid := Extents(b);
    SitedMeans(b, pl.s.len, pl.lba, pl.dirs);
    RootReady(b, t);
    var last := Place(b, t, pl.s, pl.lba, b.root, next, pl.total, height);
    AllPlaced(b, t, pl, mid);
  }

  /** Directories placed first, files placed after them: everything is placed. */
  lemma AllPlaced(b: Builder, t: Tree, pl: Plan, mid: Placement)
    requires Plots(t, pl) && Filed(b) && mid.Keys == b.repr && PlacedIn(mid, b.nodes, pl.s.len, pl.lba, pl.dirs)
    requires PlacedIn(Extents(b), b.nodes, pl.s.len, pl.lba, pl.s.files[Root])
    requires SameBut(Extents(b), mid, pl.s.files[Root])
    ensures forall p <- t :: Sited(b, pl.s.len, pl.lba, p)
  {
    var all := pl.dirs + pl.s.files[Root];
    StillPlaced(mid, mid, Extents(b), b.nodes, pl.s.len, pl.lba, pl.dirs, pl.s.files[Root], all);
    SitedMeans(b, pl.s.len, pl.lba, all);
    forall p | p in t ensures Sited(b, pl.s.len, pl.lba, p) { assert p in all; }
  }

  method SetTable(b: Builder, ghost t: Tree, mLBA: u32)
    requires Titled(b, t)
    modifies b`pathTableMLBA
    ensures Titled(b, t) && b.pathTableMLBA == mLBA
  {
    b.pathTableMLBA := mLBA;
  }

  method MeasureTables(b: Builder, ghost t: Tree, ghost pl: Plan, dirs: seq<Node>) returns (mLBA: u32, next: u32)
    requires Titled(b, t) && NodesAt(b, dirs, pl.dirs) && Plots(t, pl)
    ensures mLBA == pl.mLBA && next == pl.start
  {
    var ptBytes := PathTableSize(b, t, dirs, pl.dirs);
    mLBA, next := TablePlaces(ptBytes, pl.mLBA, pl.start);
  }

  /** The second half: where everything goes. */
  method Allot(b: Builder, ghost t: Tree, ghost pl: Plan, dirs: seq<Node>, ghost height: nat)
    requires Titled(b, t) && NodesAt(b, dirs, pl.dirs) && Indexed(dirs) && Plots(t, pl)
    requires Shallow(b.nodes.Keys, height)
    modifies b`pathTableMLBA, b.repr`extentLBA, b.repr`extentLen
    ensures LaidOut(b, t, pl, dirs)
  {
    var mLBA, next := MeasureTables(b, t, pl, dirs);
    SetTable(b, t, mLBA);
    PlaceAll(b, t, pl, dirs, next, height);
  }

  method Layout(b: Builder, ghost t: Tree, ghost s: Survey) returns (dirs: seq<Node>, ghost pl: Plan)
    requires b.Valid() && b.Unassigned() && b.entries == t && Fits(t) && Surveyed(t, s)
    modifies b`pathTableMLBA, b.repr`id, b.repr`parent, b.repr`dirIndex, b.repr`extentLBA, b.repr`extentLen
    ensures LaidOut(b, t, pl, dirs) && IsPlan(t, pl)
  {
    ghost var ps, up;
    dirs, ps, up := NameAndNumber(b, t, s);
    pl := PlanFor(t, s, ps, up);
    Allot(b, t, pl, dirs, Height(t));
  }

  /** Recomputed from the nodes, the size of the volume is where allocation ended. */
  method TotalSectors(b: Builder, ghost t: Tree, ghost pl: Plan, dirs: seq<Node>, ghost height: nat) returns (max: u32)
    requires LaidOut(b, t, pl, dirs) && Shallow(b.nodes.Keys, height)
    ensures max == pl.total
  {
    var ptBytes := PathTableSize(b, t, dirs, pl.dirs);
    max := TableEnd(b.pathTableMLBA, ptBytes, pl.start);
    max := WalkAll(b, t, pl, dirs, max, height);
  }

  method WalkAll(b: Builder, ghost t: Tree, ghost pl: Plan, dirs: seq<Node>, start: u32, ghost height: nat)
    returns (max: u32)
    requires Titled(b, t) && NodesAt(b, dirs, pl.dirs) && Plots(t, pl) && start == pl.start
    requires forall p <- t :: Sited(b, pl.s.len, pl.lba, p)
    requires Shallow(b.nodes.Keys, height)
    ensures max == pl.total
  {
    max := WalkDirs(b, pl.s, dirs, pl.dirs, pl.lba, start, pl.mid);
    RootReady(b, t);
    max := Walk(b, t, pl.s, pl.lba, b.root, max, pl.total, height);
  }
}
