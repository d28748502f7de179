/** Reading undoes writing: opening the image of a tree yields the same tree. */
module RoundTrips {
  import opened Bytes
  import opened Identifiers
  import opened DirRecords
  import opened DirExtents
  import opened Readers
  import opened Trees
  import opened Plans
  import opened Placing
  import opened Layouts
  import opened PathTables
  import opened DirWriters
  import opened Volumes
  import opened FileSystems
  import opened Images

  // ----- The setting -----

  /** The record a reader is to see for the entry at `p`. */
  ghost function RecOf(t: Tree, pl: Plan, p: Path): DirRecord
    requires Plots(t, pl) && p in t
  {
    SlotAt(t, pl, p, PtIdent(t, p)).Record()
  }

  lemma RecFacts(t: Tree, pl: Plan, p: Path)
    requires Plots(t, pl) && p in t
    ensures var rec := RecOf(t, pl, p);
            && rec.lba == pl.lba[p] && rec.size == pl.s.len[p] && rec.IsDir() == IsDirAt(t, p) && rec.extents == None
            && rec.rawName == PtIdent(t, p) && rec.name == CleanName(PtIdent(t, p)) && rec.sysUse == []
  {
    DecodedFacts(SlotAt(t, pl, p, PtIdent(t, p)));
  }

  lemma DecodedFacts(s: Slot)
    ensures var rec := s.Record();
            && rec.lba == s.lba && rec.size == s.size && rec.IsDir() == s.isDir && rec.extents == None
            && rec.rawName == s.id && rec.name == CleanName(s.id) && rec.sysUse == []
  {
  }

  /** The caller passes the image's size, or -1 if it does not know it. */
  predicate Sized(data: Str, size: int) { size == |data| || size < 0 }

  /** An extent the reader accepts: of unknown images, it takes no extent over 1 GiB. */
  predicate Acceptable(size: int, len: nat) { size >= 0 || len <= MAX_UNKNOWN_ALLOC }

  /** A directory the reader accepts: it takes none over 16 MiB. */
  predicate OpenDir(pl: Plan, p: Path) { p in pl.s.len && pl.s.len[p] <= MAX_DIR_EXTENT }

  /** Every directory on the way to `q` is one the reader accepts. */
  predicate OpenWay(pl: Plan, q: Path) {
    q.Root? || (OpenDir(pl, q.parent) && OpenWay(pl, q.parent))
  }

  lemma ExtentAccepted(t: Tree, pl: Plan, v: Text, stamp: Stamp, ts: VolumeTime, data: Str, size: int, p: Path)
    requires Plots(t, pl) && Mastered(data, t, pl, v, stamp, ts) && Sized(data, size) && p in t
             && Acceptable(size, pl.s.len[p])
    ensures (pl.lba[p] as int) * 2048 + pl.s.len[p] <= |data|
    ensures SizeFits(pl.s.len[p], AllocCeiling(size))
            && ExtentFits((pl.lba[p] as int) * 2048, pl.s.len[p], AllocCeiling(size))
  {
    assert BodyHeld(data, t, pl, stamp, p);
    BodyCovers(t, pl, p, stamp);
  }

  lemma BodyCovers(t: Tree, pl: Plan, p: Path, stamp: Stamp)
    requires Plots(t, pl) && p in t
    ensures |Body(t, pl, p, stamp)| >= pl.s.len[p]
  {
    if IsDirAt(t, p) { DirBytesLength(t, pl, p, stamp); } else { FileShare(t, pl.s, p); }
  }

  // ----- Directories -----

  lemma KidShort(t: Tree, pl: Plan, p: Path, i: nat)
    requires Plots(t, pl) && IsDirAt(t, p) && i < |KidSlots(t, pl, p)|
    ensures |KidSlots(t, pl, p)[i].id| <= 221
  {
    KidsInTree(t, pl, p);
    DirSurvey(t, pl.s, p);
    IdsShort(t, p, pl.s.kids[p][i]);
  }

  lemma SlotsShort(t: Tree, pl: Plan, p: Path)
    requires Plots(t, pl) && IsDirAt(t, p)
    ensures forall s <- DirSlots(t, pl, p) :: |s.id| <= 221
  {
    var kids := KidSlots(t, pl, p);
    forall k | k in kids ensures |k.id| <= 221 {
      var i :| 0 <= i < |kids| && kids[i] == k;
      KidShort(t, pl, p, i);
    }
  }

  lemma DirAccepted(rec: DirRecord, maxAlloc: int)
    requires rec.IsDir() && rec.size <= MAX_DIR_EXTENT && SizeFits(rec.size, maxAlloc)
    requires ExtentFits((rec.lba as int) * 2048, rec.size, maxAlloc)
    ensures CheckDir(2048, rec, maxAlloc) == None
  {
  }

  lemma DirHeld(t: Tree, pl: Plan, v: Text, stamp: Stamp, ts: VolumeTime, data: Str, p: Path)
    requires Plots(t, pl) && Mastered(data, t, pl, v, stamp, ts) && IsDirAt(t, p)
    ensures InImage(data, 2048, Extent(pl.lba[p], pl.s.len[p]))
    ensures Piece(data, 2048, Extent(pl.lba[p], pl.s.len[p])) == ExtentBytes(EncodeAll(DirSlots(t, pl, p), stamp))
  {
    assert BodyHeld(data, t, pl, stamp, p);
    DirBytesLength(t, pl, p, stamp);
  }

  /** Every directory yields ".", ".." and each child in identifier order, unless it is over 16 MiB: that is refused. */
  lemma DirReads(t: Tree, pl: Plan, v: Text, stamp: Stamp, ts: VolumeTime, data: Str, size: int, p: Path)
    requires Plots(t, pl) && Mastered(data, t, pl, v, stamp, ts) && Sized(data, size) && IsDirAt(t, p)
    ensures ReadDirRecords(data, 2048, RecOf(t, pl, p), AllocCeiling(size))
         == if OpenDir(pl, p) then Ok(Records(DirSlots(t, pl, p))) else Err(Corrupt)
  {
    RecFacts(t, pl, p);
    if !OpenDir(pl, p) { return; }
    ExtentAccepted(t, pl, v, stamp, ts, data, size, p);
    DirHeld(t, pl, v, stamp, ts, data, p);
    SlotsShort(t, pl, p);
    DirAccepted(RecOf(t, pl, p), AllocCeiling(size));
    DirectoryReadsBack(data, RecOf(t, pl, p), AllocCeiling(size), DirSlots(t, pl, p), stamp);
  }

  /** What one record says. */
  predicate Says(e: DirRecord, id: Str, isDir: bool, lba: int, size: int) {
    && e.rawName == id && e.flags == (if isDir then 2 else 0) && e.lba == lba && e.size == size
    && e.sysUse == [] && e.extents == None
  }

  /** A directory is read by its flag, its place and its size alone. */
  lemma SameDirectory(img: Str, a: DirRecord, b: DirRecord, maxAlloc: int)
    requires a.IsDir() && b.IsDir() && a.lba == b.lba && a.size == b.size
    ensures ReadDirRecords(img, 2048, a, maxAlloc) == ReadDirRecords(img, 2048, b, maxAlloc)
  {
  }

  lemma SlotSays(s: Slot)
    ensures Says(s.Record(), s.id, s.isDir, s.lba, s.size)
  {
  }

  lemma KidSlotAt(t: Tree, pl: Plan, p: Path, i: nat)
    requires Plots(t, pl) && IsDirAt(t, p) && i < |ById(t, p)|
    ensures var q := Child(p, ById(t, p)[i]);
            && q in t && |DirSlots(t, pl, p)| == |ById(t, p)| + 2
            && DirSlots(t, pl, p)[i + 2] == Slot(Id(t, q), pl.lba[q], pl.s.len[q], IsDirAt(t, q))
  {
    KidsInTree(t, pl, p);
    assert DirSlots(t, pl, p)[i + 2] == KidSlots(t, pl, p)[i];
  }

  lemma DotSlotsAt(t: Tree, pl: Plan, p: Path)
    requires Plots(t, pl) && IsDirAt(t, p)
    ensures var up := if p.Root? then Root else p.parent;
            && up in t && |DirSlots(t, pl, p)| >= 2
            && DirSlots(t, pl, p)[0] == Slot([0], pl.lba[p], pl.s.len[p], true)
            && DirSlots(t, pl, p)[1] == Slot([1], pl.lba[up], pl.s.len[up], true)
  {
    assert p.Child? ==> Hangs(t, p);
    FirstTwo(SlotAt(t, pl, p, [0]), SlotAt(t, pl, ParentOf(p), [1]), KidSlots(t, pl, p));
  }

  lemma FirstTwo(a: Slot, b: Slot, kids: seq<Slot>)
    ensures ([a, b] + kids)[0] == a && ([a, b] + kids)[1] == b
  {
  }

  /** Any record that marks a directory and gives the place and size of the one at `p` reads as ".", which is that
      directory; "..", which is the one above it, or itself for the root; and each child, in identifier order. */
  lemma DirectoryEntries(t: Tree, pl: Plan, v: Text, stamp: Stamp, ts: VolumeTime, data: Str, size: int, p: Path,
                         rec: DirRecord)
    requires Plots(t, pl) && Mastered(data, t, pl, v, stamp, ts) && Sized(data, size) && IsDirAt(t, p) && OpenDir(pl, p)
    requires rec.flags / 2 % 2 == 1 && rec.lba == pl.lba[p] && rec.size == pl.s.len[p]
    ensures var r := ReadDirRecords(data, 2048, rec, AllocCeiling(size));
            r.Ok? && ListsDirectory(t, pl, p, r.value)
  {
    RecFacts(t, pl, p);
    SameDirectory(data, rec, RecOf(t, pl, p), AllocCeiling(size));
    DirReads(t, pl, v, stamp, ts, data, size, p);
    RecordsList(t, pl, p);
  }

  /** The records of the directory at `p`. */
  ghost predicate ListsDirectory(t: Tree, pl: Plan, p: Path, es: seq<DirRecord>)
    requires Plots(t, pl) && IsDirAt(t, p)
  {
    && |es| == |ById(t, p)| + 2
    && Says(es[0], [0], true, pl.lba[p], pl.s.len[p])
    && (p == Root ==> Says(es[1], [1], true, pl.lba[Root], pl.s.len[Root]))
    && (p != Root ==> p.parent in t && Says(es[1], [1], true, pl.lba[p.parent], pl.s.len[p.parent]))
    && (forall i {:trigger SaysKid(t, pl, p, es, i)} | 0 <= i < |ById(t, p)| :: SaysKid(t, pl, p, es, i))
  }

  ghost predicate SaysKid(t: Tree, pl: Plan, p: Path, es: seq<DirRecord>, i: nat)
    requires Plots(t, pl) && i < |ById(t, p)| && |es| == |ById(t, p)| + 2
  {
    var q := Child(p, ById(t, p)[i]);
    q in t && Says(es[i + 2], Id(t, q), IsDirAt(t, q), pl.lba[q], pl.s.len[q])
  }

  lemma KidSays(t: Tree, pl: Plan, p: Path, i: nat)
    requires Plots(t, pl) && IsDirAt(t, p) && i < |ById(t, p)|
    ensures |Records(DirSlots(t, pl, p))| == |ById(t, p)| + 2 && SaysKid(t, pl, p, Records(DirSlots(t, pl, p)), i)
  {
    KidSlotAt(t, pl, p, i);
    SlotSays(DirSlots(t, pl, p)[i + 2]);
  }

  lemma DotsSay(t: Tree, pl: Plan, p: Path)
    requires Plots(t, pl) && IsDirAt(t, p)
    ensures var es, up := Records(DirSlots(t, pl, p)), if p.Root? then Root else p.parent;
            && up in t && |es| >= 2 && Says(es[0], [0], true, pl.lba[p], pl.s.len[p])
            && Says(es[1], [1], true, pl.lba[up], pl.s.len[up])
  {
    DotSlotsAt(t, pl, p);
    SlotSays(DirSlots(t, pl, p)[0]);
    SlotSays(DirSlots(t, pl, p)[1]);
  }

  lemma RecordsList(t: Tree, pl: Plan, p: Path)
    requires Plots(t, pl) && IsDirAt(t, p)
    ensures ListsDirectory(t, pl, p, Records(DirSlots(t, pl, p)))
  {
    KidsInTree(t, pl, p);
    DotsSay(t, pl, p);
    forall i | 0 <= i < |ById(t, p)| ensures SaysKid(t, pl, p, Records(DirSlots(t, pl, p)), i) { KidSays(t, pl, p, i); }
  }

  // ----- Files -----

  /** A record with one extent reads as that extent's bytes. */
  lemma OneExtentReads(img: Str, rec: DirRecord, maxAlloc: int)
    requires !rec.IsDir() && rec.extents == None && SizeFits(rec.size, maxAlloc)
    requires ExtentFits((rec.lba as int) * 2048, rec.size, maxAlloc)
    requires InImage(img, 2048, Extent(rec.lba, rec.size))
    ensures ReadFile(img, 2048, rec, maxAlloc) == Ok(Piece(img, 2048, Extent(rec.lba, rec.size)))
  {
    var bs, e := 2048, Extent(rec.lba, rec.size);
    assert [e][..0] == [];
    assert Content(img, bs, [e]) == [] + Piece(img, bs, e) == Piece(img, bs, e);
    assert Piece(img, bs, e) + Zeros(0) == Piece(img, bs, e);
  }

  lemma UnpaddedHeld(data: Str, off: nat, t: Str)
    requires HoldsAt(data, off, Padded(t))
    ensures off + |t| <= |data| && Slice(data, off, |t|) == t
  {
    assert Slice(data, off, |t|) == Slice(data, off, |Padded(t)|)[..|t|];
  }

  lemma FileHeld(t: Tree, pl: Plan, v: Text, stamp: Stamp, ts: VolumeTime, data: Str, p: Path)
    requires Plots(t, pl) && Mastered(data, t, pl, v, stamp, ts) && IsFile(t, p)
    ensures pl.s.len[p] == |t[p].data| && InImage(data, 2048, Extent(pl.lba[p], pl.s.len[p]))
    ensures Piece(data, 2048, Extent(pl.lba[p], pl.s.len[p])) == t[p].data
  {
    assert BodyHeld(data, t, pl, stamp, p);
    FileShare(t, pl.s, p);
    UnpaddedHeld(data, (pl.lba[p] as int) * 2048, t[p].data);
  }

  /** Every file reads back exactly its bytes, unless it is over 1 GiB and the image size is not known: that is
      refused. */
  lemma FileReads(t: Tree, pl: Plan, v: Text, stamp: Stamp, ts: VolumeTime, data: Str, size: int, p: Path)
    requires Plots(t, pl) && Mastered(data, t, pl, v, stamp, ts) && Sized(data, size) && IsFile(t, p)
    ensures ReadFile(data, 2048, RecOf(t, pl, p), AllocCeiling(size))
         == if Acceptable(size, |t[p].data|) then Ok(t[p].data) else Err(Corrupt)
  {
    FileHeld(t, pl, v, stamp, ts, data, p);
    RecFacts(t, pl, p);
    if !Acceptable(size, |t[p].data|) { return; }
    ExtentAccepted(t, pl, v, stamp, ts, data, size, p);
    OneExtentReads(data, RecOf(t, pl, p), AllocCeiling(size));
  }

  // ----- Opening -----

  ghost function VolumeFor(t: Tree, pl: Plan, v: Text): OpenVolume
    requires Plots(t, pl)
  {
    Volume(VolumeIdent(v), 2048, pl.total, RecOf(t, pl, Root), EMPTY_RECORD, false)
  }

  ghost function Mounted(t: Tree, pl: Plan, v: Text, rs: Reader, size: int, lib: Library): FileSystem
    requires Plots(t, pl)
  {
    FileSystem(rs, size, lib, VolumeFor(t, pl, v), RecOf(t, pl, Root), false, 0)
  }

  /** The volume descriptor set reads back as the builder's volume. */
  lemma VolumeReads(t: Tree, pl: Plan, v: Text, stamp: Stamp, ts: VolumeTime, data: Str)
    requires Plots(t, pl) && Mastered(data, t, pl, v, stamp, ts)
    ensures VolumeOf(data) == Ok(VolumeFor(t, pl, v))
  {
    VolumeReadsBack(data, v, pl.total, pl.ptBytes, PT_L, pl.mLBA, pl.lba[Root], pl.s.len[Root], stamp, ts);
  }

  lemma NoSuspInRoot(t: Tree, pl: Plan, v: Text, stamp: Stamp, ts: VolumeTime, rs: Reader, size: int)
    requires Plots(t, pl) && Mastered(rs.data, t, pl, v, stamp, ts) && Sized(rs.data, size) && Conforms(rs)
    ensures PrimarySusp(rs, size, VolumeFor(t, pl, v)) == None
  {
    var es := Records(DirSlots(t, pl, Root));
    DirReads(t, pl, v, stamp, ts, rs.data, size, Root);
    ReadsTheDirectory(rs, 2048, RecOf(t, pl, Root), AllocCeiling(size));
    assert es[0].rawName == [0] && FirstDot(es, 0) == Some(es[0]);
  }

  /** Opening an image of a tree, if it succeeds, chooses the plain primary tree, whatever can be read of the rest; over
      an honest reader it succeeds. */
  lemma OpensAsMounted(t: Tree, pl: Plan, v: Text, stamp: Stamp, ts: VolumeTime, rs: Reader, size: int, lib: Library)
    requires Plots(t, pl) && Mastered(rs.data, t, pl, v, stamp, ts) && Sized(rs.data, size) && Conforms(rs)
    ensures Yields(rs, Opened(rs, size, lib), Mounted(t, pl, v, rs, size, lib), true)
  {
    VolumeReads(t, pl, v, stamp, ts, rs.data);
    ReadsTheDescriptors(rs, SYSTEM_AREA_SECTORS, Progress(NO_VOLUME, false, false));
    NoSuspInRoot(t, pl, v, stamp, ts, rs, size);
  }

  // ----- Where things stand on disk -----

  lemma SliceInside(x: Str, s: Str, y: Str, a: nat, b: nat)
    requires a <= b <= |s|
    ensures (x + s + y)[|x| + a..|x| + b] == s[a..b]
  {
  }

  lemma PartHeld(data: Str, off: nat, s: Str, a: nat, b: nat)
    requires HoldsAt(data, off, s) && a <= b <= |s|
    ensures off + b <= |data| && data[off + a..off + b] == s[a..b]
  {
    assert data == data[..off] + s + data[off + |s|..];
    SliceInside(data[..off], s, data[off + |s|..], a, b);
  }

  lemma PartOfPart(s: Str, o: nat, part: Str, a: nat, b: nat)
    requires o + |part| <= |s| && s[o..o + |part|] == part && a <= b <= |part|
    ensures s[o + a..o + b] == part[a..b]
  {
    PartHeld(s, o, part, a, b);
  }

  /** Sixteen empty sectors, a primary descriptor, a terminator: the descriptor says how long the image is and where the
      two path tables stand, and they stand there. */
  lemma DescriptorsOnDisk(t: Tree, pl: Plan, v: Text, stamp: Stamp, ts: VolumeTime, data: Str)
    requires Plots(t, pl) && Mastered(data, t, pl, v, stamp, ts)
    ensures |data| >= 18 * 2048 && forall i | 0 <= i < 16 * 2048 :: data[i] == 0
    ensures data[16 * 2048..16 * 2048 + 8] == [1, 0x43, 0x44, 0x30, 0x30, 0x31, 1, 0]
    ensures data[17 * 2048..17 * 2048 + 8] == [255, 0x43, 0x44, 0x30, 0x30, 0x31, 1, 0]
    ensures data[16 * 2048 + 80..16 * 2048 + 84] == LE32(pl.total)
    ensures data[16 * 2048 + 132..16 * 2048 + 136] == LE32(pl.ptBytes)
    ensures data[16 * 2048 + 140..16 * 2048 + 144] == LE32(18)
            && HoldsAt(data, 18 * 2048, PtImage(PtRecords(t, pl), false))
    ensures data[16 * 2048 + 148..16 * 2048 + 152] == BE32(pl.mLBA)
            && HoldsAt(data, pl.mLBA * 2048, PtImage(PtRecords(t, pl), true))
  {
    SystemArea(data);
    TerminatorMeans();
    PartHeld(data, 17 * 2048, Terminator(), 0, 8);
    PvdOnDisk(data, VolumeIdent(v), pl.total, pl.ptBytes, PT_L, pl.mLBA,
              EncodeRecord([0], pl.lba[Root], pl.s.len[Root], true, stamp), ts);
  }

  lemma PvdOnDisk(data: Str, ident: Str, total: u32, ptBytes: u32, lLBA: u32, mLBA: u32, root: Str, ts: VolumeTime)
    requires |ident| <= 32 && |root| == 34
             && HoldsAt(data, 16 * 2048, Pvd(ident, total, ptBytes, lLBA, mLBA, root, ts))
    ensures |data| >= 17 * 2048 && data[16 * 2048..16 * 2048 + 8] == [1, 0x43, 0x44, 0x30, 0x30, 0x31, 1, 0]
    ensures data[16 * 2048 + 80..16 * 2048 + 84] == LE32(total)
    ensures data[16 * 2048 + 132..16 * 2048 + 136] == LE32(ptBytes)
    ensures data[16 * 2048 + 140..16 * 2048 + 144] == LE32(lLBA)
    ensures data[16 * 2048 + 148..16 * 2048 + 152] == BE32(mLBA)
  {
    var pvd, sizes := Pvd(ident, total, ptBytes, lLBA, mLBA, root, ts), PvdSizes(total, ptBytes, lLBA, mLBA);
    PvdMeans(ident, total, ptBytes, lLBA, mLBA, root, ts);
    PvdHeadMeans(ident);
    PvdSizesMeans(total, ptBytes, lLBA, mLBA);
    PartHeld(data, 16 * 2048, pvd, 0, 8);
    PartOfPart(pvd, 0, PvdHead(ident), 0, 8);
    SizeField(data, pvd, sizes, 8);
    SizeField(data, pvd, sizes, 60);
    SizeField(data, pvd, sizes, 68);
    SizeField(data, pvd, sizes, 76);
  }

  lemma SystemArea(data: Str)
    requires HoldsAt(data, 0, Zeros(16 * 2048))
    ensures forall i | 0 <= i < 16 * 2048 :: data[i] == 0
  {
    assert forall i | 0 <= i < 16 * 2048 :: data[i] == Slice(data, 0, 16 * 2048)[i];
  }

  lemma SizeField(data: Str, pvd: Str, sizes: Str, a: nat)
    requires HoldsAt(data, 16 * 2048, pvd) && |pvd| == 2048 && |sizes| == 84 && pvd[72..156] == sizes && a + 4 <= 84
    ensures 16 * 2048 + 72 + a + 4 <= |data|
            && data[16 * 2048 + 72 + a..16 * 2048 + 72 + a + 4] == sizes[a..a + 4]
  {
    PartHeld(data, 16 * 2048, pvd, 72 + a, 72 + a + 4);
    PartOfPart(pvd, 72, sizes, a, a + 4);
  }
}
