/** Layout as mathematics: numbering directories, adding up sectors, and allocating them without gaps. */
module Plans {
  import opened Bytes
  import opened Trees

  // ----- Sums over paths -----

  type Weights = map<Path, nat>

  function SumSeq(w: Weights, ps: seq<Path>): nat
    requires forall p <- ps :: p in w
  {
    if ps == [] then 0
    else
      assert ps[|ps| - 1] in ps;
      SumSeq(w, ps[..|ps| - 1]) + w[ps[|ps| - 1]]
  }

  ghost function SumSet(w: Weights, ps: set<Path>): nat
    requires ps <= w.Keys
  {
    if ps == {} then 0 else var p :| p in ps; SumSet(w, ps - {p}) + w[p]
  }

  lemma {:induction false} SumSetRemove(w: Weights, ps: set<Path>, p: Path)
    requires ps <= w.Keys && p in ps
    ensures SumSet(w, ps) == SumSet(w, ps - {p}) + w[p]
  {
    var q :| q in ps && SumSet(w, ps) == SumSet(w, ps - {q}) + w[q];
    if q != p {
      SumSetRemove(w, ps - {q}, p);
      SumSetRemove(w, ps - {p}, q);
      assert ps - {q} - {p} == ps - {p} - {q};
    }
  }

  /** Adding up in any order, each path once, gives the same sum. */
  lemma {:induction false} SumAnyOrder(w: Weights, ps: seq<Path>)
    requires Distinct(ps) && forall p <- ps :: p in w
    ensures SumSeq(w, ps) == SumSet(w, set p <- ps)
  {
    var all := set p <- ps;
    if ps == [] {
      assert all == {};
    } else {
      var n := |ps| - 1;
      var last := ps[n];
      DistinctPrefix(ps, n);
      SumAnyOrder(w, ps[..n]);
      assert all - {last} == (set p <- ps[..n]) by {
        assert ps == ps[..n] + [last];
        assert NewAt(ps, n);
      }
      SumSetRemove(w, all, last);
    }
  }

  lemma {:induction false} SumSeqSplit(w: Weights, a: seq<Path>, b: seq<Path>)
    requires forall p <- a + b :: p in w
    ensures (forall p <- a :: p in w) && (forall p <- b :: p in w)
    ensures SumSeq(w, a + b) == SumSeq(w, a) + SumSeq(w, b)
  {
    assert forall p <- a :: p in a + b;
    assert forall p <- b :: p in a + b;
    if b == [] {
      assert a + b == a;
    } else {
      var n := |b| - 1;
      assert (a + b)[..|a + b| - 1] == a + b[..n];
      SumSeqSplit(w, a, b[..n]);
    }
  }

  // ----- What a tree needs -----

  /** `sectorsFor`, in the source's 32-bit arithmetic. */
  function SectorsFor(n: u32): u32 { (n + 2047) % 0x1_0000_0000 / 2048 }

  /** The 32-bit sum wraps exactly above 2^32 - 2048. */
  lemma SectorsForExact(n: u32)
    ensures SectorsFor(n) == Sectors(n) <==> n <= 0xFFFF_F800
  {
  }

  ghost function SectorWeights(t: Tree): (w: Weights)
    requires WellFormed(t)
    ensures w.Keys == t.Keys
  {
    map p | p in t :: Sectors(Len(t, p))
  }

  function PtEntryLen(idLen: nat): nat { 8 + idLen + idLen % 2 }

  /** The identifier a path-table entry carries. */
  ghost function PtIdent(t: Tree, p: Path): Str
    requires WellFormed(t) && p in t
  {
    if p.Root? then [0] else Id(t, p)
  }

  ghost function PtWeights(t: Tree): (w: Weights)
    requires WellFormed(t)
    ensures forall p :: p in w <==> IsDirAt(t, p)
  {
    map p | p in t && IsDirAt(t, p) :: PtEntryLen(|PtIdent(t, p)|)
  }

  /** Byte length of one path table. */
  ghost function PtBytes(t: Tree): nat
    requires WellFormed(t)
  {
    SumSet(PtWeights(t), PtWeights(t).Keys)
  }

  const PT_L: u32 := 18

  /** First sector after the two path tables. */
  ghost function DataStart(t: Tree): nat
    requires WellFormed(t)
  {
    PT_L + 2 * Sectors(PtBytes(t))
  }

  ghost function TotalNeeded(t: Tree): nat
    requires WellFormed(t)
  {
    DataStart(t) + SumSet(SectorWeights(t), t.Keys)
  }

  /** The tree fits the format's 32-bit fields: no extent or path table whose rounding up would wrap, and
      fewer than 2^32 sectors in all. */
  ghost predicate Fits(t: Tree) {
    && WellFormed(t)
    && (forall p <- t :: Len(t, p) <= 0xFFFF_F800)
    && PtBytes(t) <= 0xFFFF_F800
    && TotalNeeded(t) < TWO32
  }

  // ----- Allocation -----

  /** Every file, in the order of allocation. */
  ghost function AllFilesOf(t: Tree): seq<Path>
    requires WellFormed(t)
  {
    IdListingLists(t);
    FilesAt(t, IdListing(t), Root)
  }

  lemma AllFilesOnce(t: Tree)
    requires WellFormed(t)
    ensures Distinct(AllFilesOf(t)) && forall p :: p in AllFilesOf(t) <==> IsFile(t, p)
  {
    IdListingLists(t);
    AllFiles(t, IdListing(t));
  }

  /** What a tree determines about each of its entries: the children in identifier order, the files at and below in
      allocation order, the extent's size in bytes and in sectors. */
  datatype Survey = Survey(kids: Listing, files: map<Path, seq<Path>>, len: Weights, w: Weights)

  ghost function SurveyOf(t: Tree): (s: Survey)
    requires WellFormed(t)
  {
    IdListingLists(t);
    Survey(IdListing(t), map p | p in t :: FilesAt(t, IdListing(t), p), map p | p in t :: Len(t, p), SectorWeights(t))
  }

  ghost predicate Surveyed(t: Tree, s: Survey) {
    && s.kids.Keys == s.files.Keys == s.len.Keys == s.w.Keys == t.Keys
    && (forall p {:trigger SurveyedAt(t, s, p)} | p in t :: SurveyedAt(t, s, p))
  }

  ghost predicate SurveyedAt(t: Tree, s: Survey, p: Path)
    requires p in t && s.kids.Keys == s.files.Keys == s.len.Keys == s.w.Keys == t.Keys
  {
    && WellFormed(t) && Lists(t, IdListing(t))
    && s.kids[p] == ById(t, p) && s.files[p] == FilesAt(t, IdListing(t), p)
    && s.len[p] == Len(t, p) && s.w[p] == Sectors(s.len[p])
  }

  lemma SurveyIs(t: Tree)
    requires WellFormed(t)
    ensures Surveyed(t, SurveyOf(t))
  {
    IdListingLists(t);
  }

  type Lbas = map<Path, u32>

  /** The extents of `ps`, whose sizes in sectors are `w`, occupy sectors `start`..`end` in that order, without gap
      or overlap. */
  ghost predicate Consecutive(w: Weights, ps: seq<Path>, lba: Lbas, start: int, end: int) {
    && (forall p <- ps :: p in w && p in lba)
    && (forall i | 0 <= i < |ps| :: LbaIs(w, ps, lba, start, i))
    && end == start + SumSeq(w, ps)
  }

  ghost predicate LbaIs(w: Weights, ps: seq<Path>, lba: Lbas, start: int, i: nat)
    requires i < |ps| && forall p <- ps :: p in w && p in lba
  {
    lba[ps[i]] == start + SumSeq(w, ps[..i])
  }

  lemma ConsecutiveAppend(w: Weights, a: seq<Path>, b: seq<Path>, lba: Lbas, start: int, mid: int, end: int)
    requires Consecutive(w, a, lba, start, mid) && Consecutive(w, b, lba, mid, end)
    ensures Consecutive(w, a + b, lba, start, end)
  {
    SumSeqSplit(w, a, b);
    forall i | 0 <= i < |a + b| ensures LbaIs(w, a + b, lba, start, i) {
      if i < |a| {
        assert LbaIs(w, a, lba, start, i);
        assert (a + b)[..i] == a[..i];
      } else {
        assert LbaIs(w, b, lba, mid, i - |a|);
        assert (a + b)[..i] == a + b[..i - |a|];
        SumSeqSplit(w, a, b[..i - |a|]);
      }
    }
  }

  lemma ConsecutiveSplit(w: Weights, a: seq<Path>, b: seq<Path>, lba: Lbas, start: int, end: int) returns (mid: int)
    requires Consecutive(w, a + b, lba, start, end)
    ensures Consecutive(w, a, lba, start, mid) && Consecutive(w, b, lba, mid, end)
  {
    SumSeqSplit(w, a, b);
    mid := start + SumSeq(w, a);
    assert forall p <- a :: p in a + b;
    assert forall p <- b :: p in a + b;
    forall i | 0 <= i < |a| ensures LbaIs(w, a, lba, start, i) {
      assert LbaIs(w, a + b, lba, start, i);
      assert (a + b)[..i] == a[..i];
    }
    forall i | 0 <= i < |b| ensures LbaIs(w, b, lba, mid, i) {
      assert LbaIs(w, a + b, lba, start, |a| + i);
      assert (a + b)[..|a| + i] == a + b[..i];
      SumSeqSplit(w, a, b[..i]);
    }
  }

  lemma ConsecutiveOne(w: Weights, p: Path, lba: Lbas)
    requires p in w && p in lba
    ensures Consecutive(w, [p], lba, lba[p], lba[p] + w[p])
  {
    assert [p][..0] == [];
    assert LbaIs(w, [p], lba, lba[p], 0);
  }

  /** Only the listed positions matter. */
  lemma ConsecutiveFrame(w: Weights, ps: seq<Path>, lba: Lbas, lba': Lbas, start: int, end: int)
    requires Consecutive(w, ps, lba, start, end)
    requires forall p <- ps :: p in lba' && lba'[p] == lba[p]
    ensures Consecutive(w, ps, lba', start, end)
  {
    forall i | 0 <= i < |ps| ensures LbaIs(w, ps, lba', start, i) {
      assert LbaIs(w, ps, lba, start, i);
    }
  }

  lemma {:induction false} SumSeqMonotone(w: Weights, ps: seq<Path>, i: nat, j: nat)
    requires i <= j <= |ps| && forall p <- ps :: p in w
    ensures SumSeq(w, ps[..i]) <= SumSeq(w, ps[..j])
  {
    if i < j {
      assert ps[..j][..j - 1] == ps[..j - 1];
      SumSeqMonotone(w, ps, i, j - 1);
    }
  }

  /** Allocated extents lie inside the range, in order, and are pairwise disjoint. */
  lemma ConsecutiveDisjoint(w: Weights, ps: seq<Path>, lba: Lbas, start: int, end: int, i: nat, j: nat)
    requires Consecutive(w, ps, lba, start, end) && i < |ps| && j < |ps|
    ensures ps[i] in lba && ps[j] in lba && ps[i] in w && ps[j] in w
    ensures start <= lba[ps[i]] && lba[ps[i]] + w[ps[i]] <= end
    ensures i < j ==> lba[ps[i]] + w[ps[i]] <= lba[ps[j]]
  {
    assert LbaIs(w, ps, lba, start, i) && LbaIs(w, ps, lba, start, j);
    assert ps[..i + 1][..i] == ps[..i];
    SumSeqMonotone(w, ps, 0, i);
    SumSeqMonotone(w, ps, i + 1, |ps|);
    assert ps[..|ps|] == ps;
    if i < j { SumSeqMonotone(w, ps, i + 1, j); }
  }

  /** Allocation from `start` on, in the order of `ps`. */
  function Allocate(w: Weights, ps: seq<Path>, start: nat): Lbas
    requires (forall p <- ps :: p in w) && start + SumSeq(w, ps) < TWO32
  {
    if ps == [] then map[]
    else
      assert ps[|ps| - 1] in ps;
      Allocate(w, ps[..|ps| - 1], start)[ps[|ps| - 1] := start + SumSeq(w, ps[..|ps| - 1])]
  }

  lemma {:induction false} AllocateIsConsecutive(w: Weights, ps: seq<Path>, start: nat)
    requires Distinct(ps) && (forall p <- ps :: p in w) && start + SumSeq(w, ps) < TWO32
    ensures Consecutive(w, ps, Allocate(w, ps, start), start, start + SumSeq(w, ps))
    ensures forall p :: p in Allocate(w, ps, start) <==> p in ps
  {
    if ps != [] {
      var n := |ps| - 1;
      assert ps == ps[..n] + [ps[n]] && ps[n] in ps;
      var before, lba := Allocate(w, ps[..n], start), Allocate(w, ps, start);
      DistinctPrefix(ps, n);
      assert NewAt(ps, n);
      AllocateIsConsecutive(w, ps[..n], start);
      ConsecutiveFrame(w, ps[..n], before, lba, start, start + SumSeq(w, ps[..n]));
      ConsecutiveOne(w, ps[n], lba);
      ConsecutiveAppend(w, ps[..n], [ps[n]], lba, start, lba[ps[n]], lba[ps[n]] + w[ps[n]]);
    }
  }

  // ----- Numbering directories -----

  /** Path-table order (ECMA-119 section 6.9.1): every directory once, each after its parent, in order of the
      parent's number and then of identifier. `up[i]` is the position of the parent of directory i. */
  ghost predicate Numbered(t: Tree, dirs: seq<Path>, up: seq<nat>) {
    && WellFormed(t) && |up| == |dirs| > 0 && dirs[0] == Root && up[0] == 0
    && Distinct(dirs)
    && (forall p :: p in dirs <==> IsDirAt(t, p))
    && (forall i | 0 < i < |dirs| :: HungAt(dirs, up, i))
    && (forall i, j | 0 < i < j < |dirs| :: PtBefore(t, dirs, up, i, j))
  }

  predicate HungAt(dirs: seq<Path>, up: seq<nat>, i: nat)
    requires i < |dirs| == |up|
  {
    dirs[i].Child? && up[i] < i && dirs[up[i]] == dirs[i].parent
  }

  ghost predicate PtBefore(t: Tree, dirs: seq<Path>, up: seq<nat>, i: nat, j: nat)
    requires WellFormed(t) && i < |dirs| && j < |dirs| && |up| == |dirs|
  {
    up[i] < up[j] || (up[i] == up[j] && IdBefore(t, dirs[i], dirs[j]))
  }

  ghost predicate IdBefore(t: Tree, p: Path, q: Path)
    requires WellFormed(t)
  {
    p in t && q in t && p.Child? && q.Child? && Less(Id(t, p), Id(t, q))
  }

  /** A plan for a tree: the numbered directories, and one gap-free allocation of every extent after the path tables. */
  ghost predicate Planned(t: Tree, dirs: seq<Path>, up: seq<nat>, lba: Lbas) {
    && Fits(t)
    && Numbered(t, dirs, up)
    && lba.Keys == t.Keys
    && Consecutive(SectorWeights(t), dirs + AllFilesOf(t), lba, DataStart(t), TotalNeeded(t))
  }

  /** The numbered directories and then the files list every entry of the tree exactly once. */
  lemma AllEntries(t: Tree, dirs: seq<Path>, up: seq<nat>)
    requires Numbered(t, dirs, up)
    ensures Distinct(dirs + AllFilesOf(t))
    ensures forall p :: p in dirs + AllFilesOf(t) <==> p in t
  {
    AllFilesOnce(t);
    DirsThenFiles(t, dirs, AllFilesOf(t));
  }

  lemma DirsThenFiles(t: Tree, dirs: seq<Path>, files: seq<Path>)
    requires Distinct(dirs) && forall p :: p in dirs <==> IsDirAt(t, p)
    requires Distinct(files) && forall p :: p in files <==> IsFile(t, p)
    ensures Distinct(dirs + files) && forall p :: p in dirs + files <==> p in t
  {
    DistinctAppend(dirs, files);
  }

  lemma SumAll(w: Weights, all: seq<Path>)
    requires Distinct(all) && forall p :: p in all <==> p in w
    ensures SumSeq(w, all) == SumSet(w, w.Keys)
  {
    assert (set p <- all) == w.Keys;
    SumAnyOrder(w, all);
  }

  lemma AllSectors(t: Tree, dirs: seq<Path>, up: seq<nat>)
    requires Numbered(t, dirs, up)
    ensures forall p <- dirs + AllFilesOf(t) :: p in SectorWeights(t)
    ensures SumSeq(SectorWeights(t), dirs + AllFilesOf(t)) == SumSet(SectorWeights(t), t.Keys)
  {
    AllEntries(t, dirs, up);
    SumAll(SectorWeights(t), dirs + AllFilesOf(t));
  }

  /** Path-table sizes add up in table order. */
  lemma PtBytesInOrder(t: Tree, dirs: seq<Path>, up: seq<nat>)
    requires Numbered(t, dirs, up)
    ensures SumSeq(PtWeights(t), dirs) == PtBytes(t)
  {
    SumAll(PtWeights(t), dirs);
  }

  /** A tree that fits has a plan for any numbering of its directories. */
  lemma PlanExists(t: Tree, dirs: seq<Path>, up: seq<nat>) returns (lba: Lbas)
    requires Fits(t) && Numbered(t, dirs, up)
    ensures Planned(t, dirs, up, lba)
  {
    AllEntries(t, dirs, up);
    AllSectors(t, dirs, up);
    AllocateIsConsecutive(SectorWeights(t), dirs + AllFilesOf(t), DataStart(t));
    lba := Allocate(SectorWeights(t), dirs + AllFilesOf(t), DataStart(t));
  }

  lemma DisjointIn(w: Weights, all: seq<Path>, lba: Lbas, start: int, end: int, p: Path, q: Path)
    requires Consecutive(w, all, lba, start, end) && p in all && q in all
    ensures start <= lba[p] && lba[p] + w[p] <= end
    ensures p != q ==> lba[p] + w[p] <= lba[q] || lba[q] + w[q] <= lba[p]
  {
    var i :| 0 <= i < |all| && all[i] == p;
    var j :| 0 <= j < |all| && all[j] == q;
    ConsecutiveDisjoint(w, all, lba, start, end, i, j);
    ConsecutiveDisjoint(w, all, lba, start, end, j, i);
  }

  /** Extents of different entries never share a sector, and none reaches into the path tables or past the end. */
  lemma ExtentsDisjoint(t: Tree, dirs: seq<Path>, up: seq<nat>, lba: Lbas, p: Path, q: Path)
    requires Planned(t, dirs, up, lba) && p in t && q in t
    ensures DataStart(t) <= lba[p] && lba[p] + Sectors(Len(t, p)) <= TotalNeeded(t)
    ensures p != q ==> lba[p] + Sectors(Len(t, p)) <= lba[q] || lba[q] + Sectors(Len(t, q)) <= lba[p]
  {
    AllEntries(t, dirs, up);
    DisjointIn(SectorWeights(t), dirs + AllFilesOf(t), lba, DataStart(t), TotalNeeded(t), p, q);
  }
}
