/** The image of a laid-out tree: what every region of it holds. */
module Images {
  import opened Bytes
  import opened DirRecords
  import opened DirExtents
  import opened Trees
  import opened Plans
  import opened Placing
  import opened Layouts
  import opened PathTables
  import opened DirWriters
  import opened Volumes

  function Padded(t: Str): (r: Str)
    ensures |r| == RoundUp(|t|)
  {
    t + Zeros(RoundUp(|t|) - |t|)
  }

  /** The bytes written for an entry's extent, padded to whole sectors. */
  ghost function Body(t: Tree, pl: Plan, p: Path, stamp: Stamp): Str
    requires Plots(t, pl) && p in t
  {
    if t[p].DirEntry? then DirBytes(t, pl, p, stamp) else Padded(t[p].data)
  }

  type Bodies = map<Path, Str>

  ghost function BodiesOf(t: Tree, pl: Plan, stamp: Stamp): Bodies
    requires Plots(t, pl)
  {
    map p | p in t :: Body(t, pl, p, stamp)
  }

  function Concat(c: Bodies, ps: seq<Path>): Str
    requires forall p <- ps :: p in c
  {
    if ps == [] then []
    else
      assert ps[|ps| - 1] in ps;
      Concat(c, ps[..|ps| - 1]) + c[ps[|ps| - 1]]
  }

  ghost function PvdOf(t: Tree, pl: Plan, volumeID: Text, stamp: Stamp, ts: VolumeTime): (s: Str)
    requires Plots(t, pl)
    ensures |s| == 2048
  {
    Pvd(VolumeIdent(volumeID), pl.total, pl.ptBytes, PT_L, pl.mLBA,
        EncodeRecord([0], pl.lba[Root], pl.s.len[Root], true, stamp), ts)
  }

  /** System area, descriptors and path tables. */
  ghost function Front(t: Tree, pl: Plan, volumeID: Text, stamp: Stamp, ts: VolumeTime): Str
    requires Plots(t, pl)
  {
    Zeros(16 * 2048) + PvdOf(t, pl, volumeID, stamp, ts) + Terminator()
    + PtImage(PtRecords(t, pl), false) + PtImage(PtRecords(t, pl), true)
  }

  /** The whole image. */
  ghost function Image(t: Tree, pl: Plan, volumeID: Text, stamp: Stamp, ts: VolumeTime): Str
    requires Plots(t, pl)
  {
    var c := BodiesOf(t, pl, stamp);
    Front(t, pl, volumeID, stamp, ts) + Concat(c, pl.dirs) + Concat(c, pl.s.files[Root])
  }

  lemma TableLength(t: Tree, pl: Plan, msb: bool)
    requires Plots(t, pl)
    ensures |PtImage(PtRecords(t, pl), msb)| == Sectors(pl.ptBytes) * 2048
  {
    PtTableSize(t, pl, msb);
  }

  lemma TableWhole(t: Tree, pl: Plan, msb: bool)
    requires Plots(t, pl)
    ensures Padded(PtImage(PtRecords(t, pl), msb)) == PtImage(PtRecords(t, pl), msb)
  {
    TableLength(t, pl, msb);
    Whole(PtImage(PtRecords(t, pl), msb), Sectors(pl.ptBytes));
  }

  lemma Whole(t: Str, n: nat)
    requires |t| == n * 2048
    ensures Padded(t) == t
  {
    assert t + Zeros(0) == t;
  }

  /** Where the Type-M table goes is where the Type-L table ends. */
  lemma MTablePlace(t: Tree, pl: Plan, done: Str)
    requires Plots(t, pl) && |done| == 18 * 2048
    ensures pl.mLBA * 2048 == |done + PtImage(PtRecords(t, pl), false)|
  {
    TableLength(t, pl, false);
  }

  lemma FrontLength(t: Tree, pl: Plan, volumeID: Text, stamp: Stamp, ts: VolumeTime)
    requires Plots(t, pl)
    ensures |Front(t, pl, volumeID, stamp, ts)| == pl.start * 2048
  {
    TableLength(t, pl, false);
    TableLength(t, pl, true);
  }

  /** Every extent is written in as many sectors as it was allocated. */
  lemma ContentLength(t: Tree, pl: Plan, p: Path, stamp: Stamp)
    requires Plots(t, pl) && p in t
    ensures |Body(t, pl, p, stamp)| == pl.s.w[p] * 2048
  {
    assert RoomyAt(pl.s, p);
    if IsDirAt(t, p) {
      DirBytesLength(t, pl, p, stamp);
      WholeSectors(PackedLen(RecordIdLens(t, p)));
    } else {
      FileShare(t, pl.s, p);
    }
  }

  lemma WholeSectors(n: nat)
    ensures Sectors(RoundUp(n)) * 2048 == RoundUp(n)
  {
  }

  /** Every body fills the sectors allocated to it. */
  ghost predicate Fills(c: Bodies, w: Weights) {
    c.Keys == w.Keys && forall p <- c :: |c[p]| == w[p] * 2048
  }

  lemma BodiesFill(t: Tree, pl: Plan, stamp: Stamp)
    requires Plots(t, pl)
    ensures Fills(BodiesOf(t, pl, stamp), pl.s.w)
  {
    forall p | p in t ensures |BodiesOf(t, pl, stamp)[p]| == pl.s.w[p] * 2048 { ContentLength(t, pl, p, stamp); }
  }

  lemma {:induction false} ConcatLength(c: Bodies, w: Weights, ps: seq<Path>)
    requires Fills(c, w) && forall p <- ps :: p in c
    ensures |Concat(c, ps)| == SumSeq(w, ps) * 2048
  {
    if ps != [] {
      assert ps[|ps| - 1] in ps;
      ConcatLength(c, w, ps[..|ps| - 1]);
    }
  }

  lemma {:induction false} ConcatAppend(c: Bodies, a: seq<Path>, b: seq<Path>)
    requires (forall p <- a :: p in c) && (forall p <- b :: p in c)
    ensures Concat(c, a + b) == Concat(c, a) + Concat(c, b)
  {
    if b == [] {
      assert a + b == a;
    } else {
      var n := |b| - 1;
      assert b[n] in b && (a + b)[..|a + b| - 1] == a + b[..n];
      ConcatAppend(c, a, b[..n]);
      Assoc(Concat(c, a), Concat(c, b[..n]), c[b[n]]);
    }
  }

  /** `c` gives every entry its body. */
  ghost predicate Embodies(t: Tree, pl: Plan, c: Bodies, stamp: Stamp) {
    && Plots(t, pl) && c.Keys == t.Keys && Fills(c, pl.s.w)
    && forall p {:trigger BodyAt(t, pl, c, stamp, p)} | p in t :: BodyAt(t, pl, c, stamp, p)
  }

  ghost predicate BodyAt(t: Tree, pl: Plan, c: Bodies, stamp: Stamp, p: Path)
    requires Plots(t, pl) && p in t && p in c
  {
    c[p] == Body(t, pl, p, stamp)
  }

  lemma BodiesEmbody(t: Tree, pl: Plan, stamp: Stamp)
    requires Plots(t, pl)
    ensures Embodies(t, pl, BodiesOf(t, pl, stamp), stamp)
  {
    BodiesFill(t, pl, stamp);
  }

  lemma DirBody(t: Tree, pl: Plan, c: Bodies, stamp: Stamp, p: Path)
    requires Embodies(t, pl, c, stamp) && IsDirAt(t, p)
    ensures c[p] == DirBytes(t, pl, p, stamp) && Padded(c[p]) == c[p]
  {
    assert BodyAt(t, pl, c, stamp, p);
    Whole(c[p], pl.s.w[p]);
  }

  lemma FileBody(t: Tree, pl: Plan, c: Bodies, stamp: Stamp, p: Path)
    requires Embodies(t, pl, c, stamp) && IsFile(t, p)
    ensures c[p] == Padded(t[p].data) && pl.s.files[p] == [p] && (t[p].data == [] ==> c[p] == [])
  {
    assert BodyAt(t, pl, c, stamp, p);
    FileShare(t, pl.s, p);
  }

  /** Directory i is written where the earlier ones end. */
  lemma NextBody(c: Bodies, w: Weights, ps: seq<Path>, lba: Lbas, start: int, end: int, i: nat, front: Str)
    requires Consecutive(w, ps, lba, start, end) && Fills(c, w) && i < |ps| && |front| == start * 2048
    ensures (forall p <- ps[..i] :: p in c) && (forall p <- ps[..i + 1] :: p in c) && ps[i] in lba && ps[i] in c
    ensures |front + Concat(c, ps[..i])| == (lba[ps[i]] as int) * 2048
    ensures front + Concat(c, ps[..i]) + c[ps[i]] == front + Concat(c, ps[..i + 1])
  {
    assert forall p <- ps[..i + 1] :: p in ps;
    assert forall p <- ps[..i] :: p in ps;
    NextSite(w, ps, lba, start, end, i);
    ConcatLength(c, w, ps[..i]);
    assert ps[..i + 1][..i] == ps[..i];
    Assoc(front, Concat(c, ps[..i]), c[ps[i]]);
  }

  lemma NextFiles(c: Bodies, w: Weights, front: Str, done: seq<Path>, fs: seq<Path>, lba: Lbas, start: int, end: int)
    requires Fills(c, w) && (forall f <- done :: f in c) && (forall f <- fs :: f in c)
    requires Consecutive(w, fs, lba, start, end) && |front + Concat(c, done)| == start * 2048
    ensures forall f <- done + fs :: f in c
    ensures front + Concat(c, done) + Concat(c, fs) == front + Concat(c, done + fs)
            && |front + Concat(c, done + fs)| == end * 2048
  {
    ConcatAppend(c, done, fs);
    ConcatLength(c, w, fs);
    Assoc(front, Concat(c, done), Concat(c, fs));
  }

  lemma OneBody(c: Bodies, p: Path)
    requires p in c
    ensures (forall q <- [p] :: q in c) && Concat(c, [p]) == c[p]
  {
    assert [p][..0] == [] && [] + c[p] == c[p];
  }

  // ----- Regions -----

  predicate HoldsAt(data: Str, off: nat, t: Str) {
    off + |t| <= |data| && Slice(data, off, |t|) == t
  }

  lemma HeldAfter(a: Str, t: Str)
    ensures HoldsAt(a + t, |a|, t)
  {
  }

  lemma HeldLonger(data: Str, more: Str, off: nat, t: Str)
    requires HoldsAt(data, off, t)
    ensures HoldsAt(data + more, off, t)
  {
    SliceOfPrefix(data, data + more, |data|, off, |t|);
  }

  /** Every listed body is found where the ones before it end. */
  lemma {:induction false} ConcatHolds(c: Bodies, w: Weights, ps: seq<Path>, i: nat, front: Str)
    requires Fills(c, w) && (forall p <- ps :: p in c) && i < |ps|
    ensures (forall p <- ps[..i] :: p in w) && ps[i] in c
    ensures HoldsAt(front + Concat(c, ps), |front| + SumSeq(w, ps[..i]) * 2048, c[ps[i]])
  {
    var n := |ps| - 1;
    assert ps[n] in ps && forall p <- ps[..n] :: p in ps;
    var before := front + Concat(c, ps[..n]);
    Assoc(front, Concat(c, ps[..n]), c[ps[n]]);
    if i == n {
      ConcatLength(c, w, ps[..n]);
      HeldAfter(before, c[ps[n]]);
    } else {
      assert ps[..n][..i] == ps[..i];
      ConcatHolds(c, w, ps[..n], i, front);
      HeldLonger(before, c[ps[n]], |front| + SumSeq(w, ps[..i]) * 2048, c[ps[i]]);
    }
  }

  lemma PlacedHolds(c: Bodies, w: Weights, ps: seq<Path>, lba: Lbas, start: nat, end: int, front: Str, p: Path)
    requires Fills(c, w) && Consecutive(w, ps, lba, start, end) && |front| == start * 2048 && p in ps
    ensures p in lba && p in c && (forall q <- ps :: q in c)
            && HoldsAt(front + Concat(c, ps), (lba[p] as int) * 2048, c[p])
  {
    var i :| 0 <= i < |ps| && ps[i] == p;
    NextSite(w, ps, lba, start, end, i);
    ConcatHolds(c, w, ps, i, front);
  }

  /** The sectors of the entry at `p` hold its body. */
  ghost predicate BodyHeld(data: Str, t: Tree, pl: Plan, stamp: Stamp, p: Path)
    requires Plots(t, pl) && p in t
  {
    HoldsAt(data, (pl.lba[p] as int) * 2048, Body(t, pl, p, stamp))
  }

  ghost predicate FrontHeld(data: Str, t: Tree, pl: Plan, volumeID: Text, stamp: Stamp, ts: VolumeTime)
    requires Plots(t, pl)
  {
    && HoldsAt(data, 0, Zeros(16 * 2048))
    && HoldsAt(data, 16 * 2048, PvdOf(t, pl, volumeID, stamp, ts))
    && HoldsAt(data, 17 * 2048, Terminator())
    && HoldsAt(data, 18 * 2048, PtImage(PtRecords(t, pl), false))
    && HoldsAt(data, pl.mLBA * 2048, PtImage(PtRecords(t, pl), true))
  }

  /** Region by region: the system area, both descriptors, both path tables, and the extent of every entry hold
      exactly what was serialised for them. */
  ghost predicate Mastered(data: Str, t: Tree, pl: Plan, volumeID: Text, stamp: Stamp, ts: VolumeTime)
    requires Plots(t, pl)
  {
    && |data| >= pl.total * 2048 && FrontHeld(data, t, pl, volumeID, stamp, ts)
    && forall p {:trigger BodyHeld(data, t, pl, stamp, p)} | p in t :: BodyHeld(data, t, pl, stamp, p)
  }

  /** The five pieces in front, whatever follows them. */
  lemma FrontHolds(t: Tree, pl: Plan, volumeID: Text, stamp: Stamp, ts: VolumeTime, more: Str)
    requires Plots(t, pl)
    ensures FrontHeld(Front(t, pl, volumeID, stamp, ts) + more, t, pl, volumeID, stamp, ts)
  {
    FrontSizes(t, pl, volumeID, stamp, ts);
    FivePieces(Zeros(16 * 2048), PvdOf(t, pl, volumeID, stamp, ts), Terminator(), PtImage(PtRecords(t, pl), false),
               PtImage(PtRecords(t, pl), true), more);
  }

  lemma FrontSizes(t: Tree, pl: Plan, volumeID: Text, stamp: Stamp, ts: VolumeTime)
    requires Plots(t, pl)
    ensures |Zeros(16 * 2048)| == 16 * 2048 && |PvdOf(t, pl, volumeID, stamp, ts)| == |Terminator()| == 2048
    ensures 18 * 2048 + |PtImage(PtRecords(t, pl), false)| == pl.mLBA * 2048
  {
    TableLength(t, pl, false);
  }

  lemma FivePieces(a: Str, b: Str, c: Str, d: Str, e: Str, more: Str)
    ensures var data := a + b + c + d + e + more;
            && HoldsAt(data, 0, a) && HoldsAt(data, |a|, b) && HoldsAt(data, |a + b|, c)
               && HoldsAt(data, |a + b + c|, d)
            && HoldsAt(data, |a + b + c + d|, e)
  {
  }

  lemma EntryHeld(t: Tree, pl: Plan, c: Bodies, stamp: Stamp, front: Str, p: Path)
    requires Embodies(t, pl, c, stamp) && |front| == pl.start * 2048 && p in t
    ensures (forall q <- pl.dirs :: q in c) && (forall q <- pl.s.files[Root] :: q in c)
    ensures HoldsAt(front + Concat(c, pl.dirs) + Concat(c, pl.s.files[Root]), (pl.lba[p] as int) * 2048, c[p])
  {
    var w, files := pl.s.w, pl.s.files[Root];
    ConcatLength(c, w, pl.dirs);
    if IsDirAt(t, p) {
      PlacedHolds(c, w, pl.dirs, pl.lba, pl.start, pl.mid, front, p);
      HeldLonger(front + Concat(c, pl.dirs), Concat(c, files), (pl.lba[p] as int) * 2048, c[p]);
    } else {
      PlacedHolds(c, w, files, pl.lba, pl.mid, pl.total, front + Concat(c, pl.dirs), p);
    }
  }

  lemma AllLength(c: Bodies, w: Weights, dirs: seq<Path>, files: seq<Path>, lba: Lbas, start: nat, mid: int, end: int,
                  front: Str)
    requires Fills(c, w) && |front| == start * 2048
    requires Consecutive(w, dirs, lba, start, mid) && Consecutive(w, files, lba, mid, end)
    ensures (forall p <- dirs :: p in c) && (forall p <- files :: p in c)
    ensures |front + Concat(c, dirs) + Concat(c, files)| == end * 2048
  {
    ConcatLength(c, w, dirs);
    ConcatLength(c, w, files);
  }

  lemma PlanLength(t: Tree, pl: Plan, c: Bodies, front: Str)
    requires Plots(t, pl) && Fills(c, pl.s.w) && |front| == pl.start * 2048
    ensures (forall p <- pl.dirs :: p in c) && (forall p <- pl.s.files[Root] :: p in c)
    ensures |front + Concat(c, pl.dirs) + Concat(c, pl.s.files[Root])| == pl.total * 2048
  {
    AllLength(c, pl.s.w, pl.dirs, pl.s.files[Root], pl.lba, pl.start, pl.mid, pl.total, front);
  }

  /** The written length is the size of the volume. */
  lemma ImageLength(t: Tree, pl: Plan, volumeID: Text, stamp: Stamp, ts: VolumeTime)
    requires Plots(t, pl)
    ensures |Image(t, pl, volumeID, stamp, ts)| == pl.total * 2048
  {
    FrontLength(t, pl, volumeID, stamp, ts);
    BodiesFill(t, pl, stamp);
    PlanLength(t, pl, BodiesOf(t, pl, stamp), Front(t, pl, volumeID, stamp, ts));
  }

  lemma ImageFront(t: Tree, pl: Plan, volumeID: Text, stamp: Stamp, ts: VolumeTime, more: Str)
    requires Plots(t, pl)
    ensures FrontHeld(Image(t, pl, volumeID, stamp, ts) + more, t, pl, volumeID, stamp, ts)
  {
    var c, front := BodiesOf(t, pl, stamp), Front(t, pl, volumeID, stamp, ts);
    Regroup(front, Concat(c, pl.dirs), Concat(c, pl.s.files[Root]), more);
    FrontHolds(t, pl, volumeID, stamp, ts, Concat(c, pl.dirs) + Concat(c, pl.s.files[Root]) + more);
  }

  lemma Regroup(a: Str, b: Str, c: Str, d: Str)
    ensures a + b + c + d == a + (b + c + d)
  {
  }

  lemma ImageBody(t: Tree, pl: Plan, volumeID: Text, stamp: Stamp, ts: VolumeTime, more: Str, p: Path)
    requires Plots(t, pl) && p in t
    ensures BodyHeld(Image(t, pl, volumeID, stamp, ts) + more, t, pl, stamp, p)
  {
    var c, front := BodiesOf(t, pl, stamp), Front(t, pl, volumeID, stamp, ts);
    BodiesEmbody(t, pl, stamp);
    FrontLength(t, pl, volumeID, stamp, ts);
    EntryHeld(t, pl, c, stamp, front, p);
    HeldLonger(Image(t, pl, volumeID, stamp, ts), more, (pl.lba[p] as int) * 2048, Body(t, pl, p, stamp));
  }

  /** Nothing written later disturbs anything written earlier: in the finished image, and in anything that starts with
      it, each region holds exactly what was serialised for it. */
  lemma ImageMastered(t: Tree, pl: Plan, volumeID: Text, stamp: Stamp, ts: VolumeTime, more: Str)
    requires Plots(t, pl)
    ensures Mastered(Image(t, pl, volumeID, stamp, ts) + more, t, pl, volumeID, stamp, ts)
  {
    var img := Image(t, pl, volumeID, stamp, ts);
    ImageLength(t, pl, volumeID, stamp, ts);
    ImageFront(t, pl, volumeID, stamp, ts, more);
    forall p | p in t ensures BodyHeld(img + more, t, pl, stamp, p) {
      ImageBody(t, pl, volumeID, stamp, ts, more, p);
    }
  }

  /** What is written is padded with zeros to the next whole sector. */
  lemma PaddedMeans(s: Str)
    ensures var p := Padded(s);
            && |p| % 2048 == 0 && |s| <= |p| < |s| + 2048 && p[..|s|] == s
            && forall i | |s| <= i < |p| :: p[i] == 0
  {
  }
}
