/** Mastering an image: `WriteTo` (create.go). */
module Mastering {
  import opened Bytes
  import opened DirRecords
  import opened Trees
  import opened Plans
  import opened Builders
  import opened Siblings
  import opened Naming
  import opened Numbering
  import opened Placing
  import opened Layouts
  import opened PathTables
  import opened DirWriters
  import opened Volumes
  import opened Images

  // ----- The device -----

  /** An io.WriterAt: `accepts(off, n)` says how many of n bytes written at off it takes; fewer than n is an error. */
  class Device {
    var data: Str
    const accepts: (nat, nat) -> nat

    constructor (data: Str, accepts: (nat, nat) -> nat)
      ensures this.data == data && this.accepts == accepts
    {
      this.data, this.accepts := data, accepts;
    }

    method WriteAt(off: nat, t: Str) returns (ok: bool)
      modifies this
      ensures ok ==> data == Written(old(data), off, t)
      ensures ok <==> accepts(off, |t|) >= |t|
    {
      var n := Min(accepts(off, |t|), |t|);
      data := Written(data, off, t[..n]);
      ok := n == |t|;
      assert ok ==> t[..n] == t;
    }
  }

  /** A device that takes every write whole. */
  ghost predicate Willing(dev: Device) {
    forall off: nat, n: nat :: dev.accepts(off, n) >= n
  }

  /** `data` with `t` at `off`; a gap before it reads as zeros. */
  function Written(data: Str, off: nat, t: Str): Str {
    if t == [] then data
    else (if off <= |data| then data[..off] else data + Zeros(off - |data|)) + t + Past(data, off + |t|)
  }

  function Past(data: Str, n: nat): Str { if n <= |data| then data[n..] else [] }

  /** The device holds `done`, and past it what it held before. */
  predicate Wrote(data: Str, done: Str, base: Str) {
    data == done + Past(base, |done|)
  }

  /** The device holds `front` and then what `c` gives for `ps`, and past that what it held before. */
  ghost predicate WroteBodies(data: Str, c: Bodies, front: Str, ps: seq<Path>, base: Str) {
    (forall p <- ps :: p in c) && Wrote(data, front + Concat(c, ps), base)
  }

  lemma WroteNext(data: Str, done: Str, base: Str, t: Str)
    requires Wrote(data, done, base)
    ensures Wrote(Written(data, |done|, t), done + t, base)
  {
    if t == [] {
      assert done + t == done;
    } else {
      assert data[..|done|] == done;
      assert Past(data, |done| + |t|) == Past(base, |done| + |t|);
    }
  }

  /** `writeAt`, at the place where the finished part ends. */
  method WriteNext(dev: Device, off: nat, t: Str, ghost done: Str, ghost base: Str) returns (ok: bool)
    requires Wrote(dev.data, done, base) && off == |done|
    modifies dev
    ensures Willing(dev) ==> ok
    ensures ok ==> Wrote(dev.data, done + Padded(t), base)
  {
    var padded := PadToSector(t);
    WroteNext(dev.data, done, base, padded);
    ok := dev.WriteAt(off, padded);
  }

  // ----- Writing -----

  method PrimaryVolumeDescriptor(b: Builder, ghost t: Tree, ghost pl: Plan, dirs: seq<Node>, ts: VolumeTime)
    returns (out: Str)
    requires LaidOut(b, t, pl, dirs)
    ensures out == PvdOf(t, pl, b.volumeID, b.stamp, ts)
  {
    var ptBytes := PathTableSize(b, t, dirs, pl.dirs);
    HeightOf(b, t);
    var total := TotalSectors(b, t, pl, dirs, Height(t));
    assert Sited(b, pl.s.len, pl.lba, Root);
    var rec := BuildRecord([0], b.root.extentLBA, b.root.extentLen, true, b.stamp);
    out := FillPvd(VolumeIdent(b.volumeID), total, ptBytes, b.pathTableMLBA, rec[..], ts);
  }

  lemma HeightOf(b: Builder, t: Tree)
    requires b.Valid() && b.entries == t
    ensures Shallow(b.nodes.Keys, Height(t))
  {
  }

  method FillPvd(ident: Str, total: u32, ptBytes: u32, mLBA: u32, root: Str, ts: VolumeTime) returns (out: Str)
    requires |ident| <= 32 && |root| == 34
    ensures out == Pvd(ident, total, ptBytes, PT_L, mLBA, root, ts)
  {
    var buf := new byte[2048](_ => 0);
    PutPvdHead(buf, ident);
    PutPvdSizes(buf, PvdHead(ident), total, ptBytes, PT_L, mLBA);
    PutPvdTail(buf, PvdHead(ident) + PvdSizes(total, ptBytes, PT_L, mLBA), root, ts);
    out := buf[..];
  }

  /** Writing at most one sector's worth of data at sector index `at`. */
  method WriteSector(dev: Device, at: nat, t: Str, ghost done: Str, ghost base: Str) returns (ok: bool)
    requires Wrote(dev.data, done, base) && at * 2048 == |done| && |t| <= 2048
    modifies dev
    ensures Willing(dev) ==> ok
    ensures ok ==> Wrote(dev.data, done + (t + Zeros(2048 - |t|)), base)
  {
    var buf := t + Zeros(2048 - |t|);
    assert Padded(buf) == buf + Zeros(0) == buf;
    ok := WriteNext(dev, at * 2048, buf, done, base);
  }

  method WriteSystemArea(dev: Device, ghost base: Str) returns (ok: bool)
    requires dev.data == base
    modifies dev
    ensures Willing(dev) ==> ok
    ensures ok ==> Wrote(dev.data, Zeros(16 * 2048), base)
  {
    ok := true;
    for s := 0 to 16
      invariant Wrote(dev.data, Zeros(s * 2048), base)
    {
      ok := WriteSector(dev, s, [], Zeros(s * 2048), base);
      if !ok { return; }
      assert Zeros(s * 2048) + ([] + Zeros(2048)) == Zeros((s + 1) * 2048);
    }
  }

  /** System area and descriptors. */
  method WriteDescriptors(b: Builder, ghost t: Tree, ghost pl: Plan, dirs: seq<Node>, ts: VolumeTime, dev: Device,
                          ghost base: Str)
    returns (ok: bool)
    requires LaidOut(b, t, pl, dirs) && dev.data == base
    modifies dev
    ensures LaidOut(b, t, pl, dirs)
    ensures Willing(dev) ==> ok
    ensures ok ==> Wrote(dev.data, Zeros(16 * 2048) + PvdOf(t, pl, b.volumeID, b.stamp, ts) + Terminator(), base)
  {
    var pvd := PrimaryVolumeDescriptor(b, t, pl, dirs, ts);
    ok := WriteHead(dev, pvd, base);
  }

  method WriteHead(dev: Device, pvd: Str, ghost base: Str) returns (ok: bool)
    requires dev.data == base && |pvd| == 2048
    modifies dev
    ensures Willing(dev) ==> ok
    ensures ok ==> Wrote(dev.data, Zeros(16 * 2048) + pvd + Terminator(), base)
  {
    ok := WriteSystemArea(dev, base);
    if !ok { return; }
    ghost var done := Zeros(16 * 2048);
    ok := WriteSector(dev, 16, pvd, done, base);
    if !ok { return; }
    assert pvd + Zeros(0) == pvd;
    done := done + pvd;
    ok := WriteSector(dev, 17, Terminator(), done, base);
    assert Terminator() + Zeros(0) == Terminator();
  }

  /** `writeAt` again; writing to the device leaves the tree laid out. */
  method WriteKeeping(b: Builder, ghost t: Tree, ghost pl: Plan, ghost dirs: seq<Node>, dev: Device, off: nat,
                      bytes: Str, ghost done: Str, ghost base: Str)
    returns (ok: bool)
    requires LaidOut(b, t, pl, dirs) && Wrote(dev.data, done, base) && off == |done|
    modifies dev
    ensures Willing(dev) ==> ok
    ensures LaidOut(b, t, pl, dirs)
    ensures ok ==> Wrote(dev.data, done + Padded(bytes), base)
  {
    ok := WriteNext(dev, off, bytes, done, base);
  }

  method WriteTable(b: Builder, ghost t: Tree, ghost pl: Plan, dirs: seq<Node>, lba: u32, msb: bool, dev: Device,
                    ghost done: Str, ghost base: Str)
    returns (ok: bool)
    requires LaidOut(b, t, pl, dirs) && Wrote(dev.data, done, base) && lba * 2048 == |done|
    modifies dev
    ensures LaidOut(b, t, pl, dirs)
    ensures Willing(dev) ==> ok
    ensures ok ==> Wrote(dev.data, done + PtImage(PtRecords(t, pl), msb), base)
  {
    var table := PathTable(b, t, pl, dirs, msb);
    TableWhole(t, pl, msb);
    ok := WriteKeeping(b, t, pl, dirs, dev, lba * 2048, table, done, base);
  }

  /** System area, descriptors and path tables. */
  method WriteFront(b: Builder, ghost t: Tree, ghost pl: Plan, dirs: seq<Node>, ts: VolumeTime, dev: Device,
                    ghost base: Str)
    returns (ok: bool)
    requires LaidOut(b, t, pl, dirs) && dev.data == base
    modifies dev
    ensures LaidOut(b, t, pl, dirs)
    ensures Willing(dev) ==> ok
    ensures ok ==> Wrote(dev.data, Front(t, pl, b.volumeID, b.stamp, ts), base)
  {
    ok := WriteDescriptors(b, t, pl, dirs, ts, dev, base);
    if !ok { return; }
    ghost var done := Zeros(16 * 2048) + PvdOf(t, pl, b.volumeID, b.stamp, ts) + Terminator();
    ok := WriteTable(b, t, pl, dirs, PT_L, false, dev, done, base);
    if !ok { return; }
    MTablePlace(t, pl, done);
    ok := WriteTable(b, t, pl, dirs, b.pathTableMLBA, true, dev, done + PtImage(PtRecords(t, pl), false), base);
  }

  // ----- Directories -----

  method WriteDir(b: Builder, ghost t: Tree, ghost pl: Plan, ghost dirs: seq<Node>, d: Node, ghost c: Bodies,
                  dev: Device, ghost done: Str, ghost base: Str)
    returns (ok: bool)
    requires LaidOut(b, t, pl, dirs) && Ready(b, t, d) && IsDirAt(t, d.path) && Embodies(t, pl, c, b.stamp)
    requires Wrote(dev.data, done, base) && d.path in pl.lba && |done| == (pl.lba[d.path] as int) * 2048
    modifies dev
    ensures Willing(dev) ==> ok
    ensures LaidOut(b, t, pl, dirs)
    ensures ok ==> Wrote(dev.data, done + c[d.path], base)
  {
    var bytes := DirectoryExtent(b, t, pl, dirs, d);
    DirBody(t, pl, c, b.stamp, d.path);
    assert Sited(b, pl.s.len, pl.lba, d.path);
    ok := WriteKeeping(b, t, pl, dirs, dev, d.extentLBA * 2048, bytes, done, base);
  }

  method WriteDirs(b: Builder, ghost t: Tree, ghost pl: Plan, dirs: seq<Node>, ghost c: Bodies, dev: Device,
                   ghost front: Str, ghost base: Str)
    returns (ok: bool)
    requires LaidOut(b, t, pl, dirs) && Embodies(t, pl, c, b.stamp)
    requires Wrote(dev.data, front, base) && |front| == pl.start * 2048
    modifies dev
    ensures Willing(dev) ==> ok
    ensures LaidOut(b, t, pl, dirs)
    ensures (forall p <- pl.dirs :: p in c) && (ok ==> Wrote(dev.data, front + Concat(c, pl.dirs), base))
  {
    ghost var ps := pl.dirs;
    assert front + Concat(c, ps[..0]) == front;
    for i := 0 to |dirs|
      invariant LaidOut(b, t, pl, dirs) && WroteBodies(dev.data, c, front, ps[..i], base)
    {
      ok := WriteNextDir(b, t, pl, dirs, i, c, dev, front, base);
      if !ok { return; }
    }
    assert ps[..|dirs|] == ps;
    ok := true;
  }

  method WriteNextDir(b: Builder, ghost t: Tree, ghost pl: Plan, dirs: seq<Node>, i: nat, ghost c: Bodies,
                      dev: Device, ghost front: Str, ghost base: Str)
    returns (ok: bool)
    requires LaidOut(b, t, pl, dirs) && Embodies(t, pl, c, b.stamp) && i < |dirs| && |front| == pl.start * 2048
    requires WroteBodies(dev.data, c, front, pl.dirs[..i], base)
    modifies dev
    ensures Willing(dev) ==> ok
    ensures LaidOut(b, t, pl, dirs)
    ensures (forall p <- pl.dirs[..i + 1] :: p in c) && (ok ==> WroteBodies(dev.data, c, front, pl.dirs[..i + 1], base))
  {
    NextBody(c, pl.s.w, pl.dirs, pl.lba, pl.start, pl.mid, i, front);
    DirReady(b, t, pl, dirs, i);
    ok := WriteDir(b, t, pl, dirs, dirs[i], c, dev, front + Concat(c, pl.dirs[..i]), base);
  }

  lemma DirReady(b: Builder, t: Tree, pl: Plan, dirs: seq<Node>, i: nat)
    requires LaidOut(b, t, pl, dirs) && i < |dirs|
    ensures Ready(b, t, dirs[i]) && dirs[i].path == pl.dirs[i] && IsDirAt(t, pl.dirs[i])
  {
    assert pl.dirs[i] in pl.dirs && b.Linked(pl.dirs[i]);
  }

  // ----- Files -----

  method WriteFiles(b: Builder, ghost t: Tree, ghost pl: Plan, ghost dirs: seq<Node>, d: Node, ghost c: Bodies,
                    dev: Device,
                    ghost front: Str, ghost base: Str, ghost start: int, ghost end: int, ghost height: nat)
    returns (ok: bool)
    requires LaidOut(b, t, pl, dirs) && Ready(b, t, d) && d.isDir && Embodies(t, pl, c, b.stamp)
    requires Consecutive(pl.s.w, pl.s.files[d.path], pl.lba, start, end)
    requires Wrote(dev.data, front, base) && |front| == start * 2048
    requires Shallow(b.nodes.Keys, Level(d.path) + height)
    modifies dev
    ensures Willing(dev) ==> ok
    ensures LaidOut(b, t, pl, dirs)
    ensures (forall p <- pl.s.files[d.path] :: p in c)
    ensures ok ==> Wrote(dev.data, front + Concat(c, pl.s.files[d.path]), base)
    decreases height, 3
  {
    var cs := IdKidsInOrder(b, t, d, pl.s);
    ghost var p := d.path;
    DirEntryOf(b, t, d);
    ghost var done, at := DirShares(t, pl.s, p, pl.lba, start, end);
    assert front + Concat(c, []) == front;
    ok := WriteKids(b, t, pl, dirs, p, cs, c, dev, front, base, done, at, height);
  }

  /** The loop of `writeFiles` over the sorted children. */
  method WriteKids(b: Builder, ghost t: Tree, ghost pl: Plan, ghost dirs: seq<Node>, ghost p: Path, cs: seq<Node>,
                   ghost c: Bodies, dev: Device, ghost front: Str, ghost base: Str,
                   ghost done: seq<seq<Path>>, ghost at: seq<int>, ghost height: nat)
    returns (ok: bool)
    requires LaidOut(b, t, pl, dirs) && KidsOf(b, p, cs) && Embodies(t, pl, c, b.stamp)
    requires p in pl.s.kids && NamesOf(cs) == pl.s.kids[p] && Shares(pl.s, pl.lba, p, done, at)
    requires |front| == at[0] * 2048 && front + Concat(c, []) == front && Wrote(dev.data, front, base)
    requires Shallow(b.nodes.Keys, Level(p) + height)
    modifies dev
    ensures Willing(dev) ==> ok
    ensures LaidOut(b, t, pl, dirs)
    ensures ok ==> (forall f <- done[|cs|] :: f in c) && Wrote(dev.data, front + Concat(c, done[|cs|]), base)
    decreases height, 2
  {
    for i := 0 to |cs|
      invariant LaidOut(b, t, pl, dirs) && WroteBodies(dev.data, c, front, done[i], base)
      invariant |front + Concat(c, done[i])| == at[i] * 2048
    {
      ok := WriteNextChild(b, t, pl, dirs, p, cs, i, c, dev, front, base, done, at, height);
      if !ok { return; }
    }
    ok := true;
  }

  lemma DirEntryOf(b: Builder, t: Tree, d: Node)
    requires Ready(b, t, d)
    ensures d.path in t && d.isDir == IsDirAt(t, d.path)
  {
    assert b.Linked(d.path);
  }

  method WriteNextChild(b: Builder, ghost t: Tree, ghost pl: Plan, ghost dirs: seq<Node>, ghost p: Path,
                        cs: seq<Node>, i: nat,
                        ghost c: Bodies, dev: Device, ghost front: Str, ghost base: Str,
                        ghost done: seq<seq<Path>>, ghost at: seq<int>, ghost height: nat)
    returns (ok: bool)
    requires LaidOut(b, t, pl, dirs) && KidsOf(b, p, cs) && i < |cs| && Embodies(t, pl, c, b.stamp)
    requires p in pl.s.kids && NamesOf(cs) == pl.s.kids[p] && Shares(pl.s, pl.lba, p, done, at)
    requires WroteBodies(dev.data, c, front, done[i], base) && |front + Concat(c, done[i])| == at[i] * 2048
    requires Shallow(b.nodes.Keys, Level(p) + height)
    modifies dev
    ensures Willing(dev) ==> ok
    ensures LaidOut(b, t, pl, dirs)
    ensures (forall f <- done[i + 1] :: f in c) && |front + Concat(c, done[i + 1])| == at[i + 1] * 2048
    ensures ok ==> WroteBodies(dev.data, c, front, done[i + 1], base)
    decreases height, 1
  {
    var kid := cs[i];
    KidShare(b, pl.s, p, pl.lba, cs, done, at, i);
    ok := WriteChild(b, t, pl, dirs, p, kid, c, dev, front + Concat(c, done[i]), base, at[i], at[i + 1], height);
    NextFiles(c, pl.s.w, front, done[i], pl.s.files[kid.path], pl.lba, at[i], at[i + 1]);
  }

  method WriteChild(b: Builder, ghost t: Tree, ghost pl: Plan, ghost dirs: seq<Node>, ghost p: Path, kid: Node,
                    ghost c: Bodies, dev: Device,
                    ghost front: Str, ghost base: Str, ghost start: int, ghost end: int, ghost height: nat)
    returns (ok: bool)
    requires LaidOut(b, t, pl, dirs) && IsKid(b, p, kid) && Embodies(t, pl, c, b.stamp)
    requires Consecutive(pl.s.w, pl.s.files[kid.path], pl.lba, start, end)
    requires Wrote(dev.data, front, base) && |front| == start * 2048
    requires Shallow(b.nodes.Keys, Level(p) + height)
    modifies dev
    ensures Willing(dev) ==> ok
    ensures LaidOut(b, t, pl, dirs)
    ensures (forall f <- pl.s.files[kid.path] :: f in c)
    ensures ok ==> Wrote(dev.data, front + Concat(c, pl.s.files[kid.path]), base)
    decreases height, 0
  {
    assert Level(kid.path) == Level(p) + 1;
    if kid.isDir {
      ok := WriteFiles(b, t, pl, dirs, kid, c, dev, front, base, start, end, height - 1);
    } else {
      ok := WriteFile(b, t, pl, dirs, kid, c, dev, front, base, start, end);
    }
  }

  method WriteFile(b: Builder, ghost t: Tree, ghost pl: Plan, ghost dirs: seq<Node>, f: Node, ghost c: Bodies,
                   dev: Device,
                   ghost front: Str, ghost base: Str, ghost start: int, ghost end: int)
    returns (ok: bool)
    requires LaidOut(b, t, pl, dirs) && Ready(b, t, f) && !f.isDir && Embodies(t, pl, c, b.stamp)
    requires Consecutive(pl.s.w, pl.s.files[f.path], pl.lba, start, end)
    requires Wrote(dev.data, front, base) && |front| == start * 2048
    modifies dev
    ensures Willing(dev) ==> ok
    ensures LaidOut(b, t, pl, dirs)
    ensures (forall p <- pl.s.files[f.path] :: p in c)
    ensures ok ==> Wrote(dev.data, front + Concat(c, pl.s.files[f.path]), base)
  {
    assert b.Linked(f.path);
    FileBody(t, pl, c, b.stamp, f.path);
    OneBody(c, f.path);
    if |f.data| == 0 {
      assert front + [] == front;
      return true;
    }
    assert Sited(b, pl.s.len, pl.lba, f.path);
    NextSite(pl.s.w, [f.path], pl.lba, start, end, 0);
    ok := WriteKeeping(b, t, pl, dirs, dev, f.extentLBA * 2048, f.data, front, base);
  }

  method WriteAll(b: Builder, ghost t: Tree, ghost pl: Plan, dirs: seq<Node>, dev: Device, ts: VolumeTime,
                  ghost c: Bodies, ghost base: Str, ghost height: nat)
    returns (ok: bool)
    requires LaidOut(b, t, pl, dirs) && dev.data == base && Embodies(t, pl, c, b.stamp)
    requires Shallow(b.nodes.Keys, height)
    modifies dev
    ensures Willing(dev) ==> ok
    ensures (forall p <- pl.dirs :: p in c) && (forall p <- pl.s.files[Root] :: p in c)
    ensures ok
            ==> Wrote(dev.data, Front(t, pl, b.volumeID, b.stamp, ts) + Concat(c, pl.dirs)
                                + Concat(c, pl.s.files[Root]), base)
  {
    ok := WriteFront(b, t, pl, dirs, ts, dev, base);
    if !ok { return; }
    FrontLength(t, pl, b.volumeID, b.stamp, ts);
    ok := WriteExtents(b, t, pl, dirs, dev, c, Front(t, pl, b.volumeID, b.stamp, ts), base, height);
  }

  /** Directory extents and then file extents. */
  method WriteExtents(b: Builder, ghost t: Tree, ghost pl: Plan, dirs: seq<Node>, dev: Device, ghost c: Bodies,
                      ghost front: Str, ghost base: Str, ghost height: nat)
    returns (ok: bool)
    requires LaidOut(b, t, pl, dirs) && Embodies(t, pl, c, b.stamp)
    requires Wrote(dev.data, front, base) && |front| == pl.start * 2048
    requires Shallow(b.nodes.Keys, height)
    modifies dev
    ensures Willing(dev) ==> ok
    ensures (forall p <- pl.dirs :: p in c) && (forall p <- pl.s.files[Root] :: p in c)
    ensures ok ==> Wrote(dev.data, front + Concat(c, pl.dirs) + Concat(c, pl.s.files[Root]), base)
  {
    ok := WriteDirs(b, t, pl, dirs, c, dev, front, base);
    if !ok { return; }
    ConcatLength(c, pl.s.w, pl.dirs);
    RootReady(b, t);
    ok := WriteFiles(b, t, pl, dirs, b.root, c, dev, front + Concat(c, pl.dirs), base, pl.mid, pl.total, height);
  }

  /** What `WriteTo` leaves on a device that took every byte: the image of the tree, and past its end what was
      there before. */
  ghost predicate Complete(data: Str, t: Tree, pl: Plan, volumeID: Text, stamp: Stamp, ts: VolumeTime, base: Str)
    requires Plots(t, pl)
  {
    Wrote(data, Image(t, pl, volumeID, stamp, ts), base) && Mastered(data, t, pl, volumeID, stamp, ts)
  }

  /** `WriteTo`, for a builder that has not been laid out before: it succeeds on every device that takes whole writes,
      and whenever it succeeds the device holds the image of the tree, region by region. */
  method WriteTo(b: Builder, dev: Device, ts: VolumeTime) returns (ok: bool, ghost pl: Plan)
    requires b.Valid() && b.Unassigned() && Fits(b.entries)
    modifies dev, b`pathTableMLBA, b.repr`id, b.repr`parent, b.repr`dirIndex, b.repr`extentLBA, b.repr`extentLen
    ensures Willing(dev) ==> ok
    ensures IsPlan(b.entries, pl)
    ensures ok ==> Complete(dev.data, b.entries, pl, b.volumeID, b.stamp, ts, old(dev.data))
  {
    var dirs;
    dirs, pl := LayoutTree(b, b.entries);
    ok := WriteImage(b, b.entries, pl, dirs, dev, ts, Height(b.entries));
  }

  method LayoutTree(b: Builder, ghost t: Tree) returns (dirs: seq<Node>, ghost pl: Plan)
    requires b.Valid() && b.Unassigned() && b.entries == t && Fits(t)
    modifies b`pathTableMLBA, b.repr`id, b.repr`parent, b.repr`dirIndex, b.repr`extentLBA, b.repr`extentLen
    ensures LaidOut(b, t, pl, dirs) && IsPlan(t, pl) && Shallow(b.nodes.Keys, Height(t))
  {
    SurveyIs(t);
    dirs, pl := Layout(b, t, SurveyOf(t));
    HeightOf(b, t);
  }

  method WriteImage(b: Builder, ghost t: Tree, ghost pl: Plan, dirs: seq<Node>, dev: Device, ts: VolumeTime,
                    ghost height: nat)
    returns (ok: bool)
    requires LaidOut(b, t, pl, dirs) && Shallow(b.nodes.Keys, height)
    modifies dev
    ensures Willing(dev) ==> ok
    ensures ok ==> Complete(dev.data, t, pl, b.volumeID, b.stamp, ts, old(dev.data))
  {
    ghost var base := dev.data;
    BodiesEmbody(t, pl, b.stamp);
    ok := WriteAll(b, t, pl, dirs, dev, ts, BodiesOf(t, pl, b.stamp), base, height);
    if ok { ImageMastered(t, pl, b.volumeID, b.stamp, ts, Past(base, |Image(t, pl, b.volumeID, b.stamp, ts)|)); }
  }
}
