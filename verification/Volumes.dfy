/** Volume descriptors: the builder's (create.go) and the reader's scan for them (volume.go). */
module Volumes {
  import opened Bytes
  import opened Identifiers
  import opened DirRecords
  import opened Readers

  const STANDARD_ID: Str := [0x43, 0x44, 0x30, 0x30, 0x31]
  const CDROM: Str := [0x43, 0x44, 0x52, 0x4F, 0x4D]
  const VD_PRIMARY: byte := 1
  const VD_SUPPLEMENT: byte := 2
  const VD_TERMINATOR: byte := 255
  const SYSTEM_AREA_SECTORS: nat := 16
  const MAX_DESCRIPTOR_SECTOR: nat := 100

  // ----- The volume identifier -----

  function VolumeIdent(name: Text): (id: Str)
    ensures 0 < |id| <= 32 && forall c <- id :: DChar(c)
  {
    var id := Clamp(Sanitize(name), 32);
    if id == [] then CDROM else id
  }

  /** The first 32 characters of the volume's name, or "CDROM" if it has none. */
  lemma VolumeIdentMeans(name: Text)
    ensures VolumeIdent(name) == if name == [] then [0x43, 0x44, 0x52, 0x4F, 0x4D]
                                 else Sanitize(name)[..Min(32, |name|)]
  {
  }

  function Spaces(n: nat): (s: Str)
    ensures |s| == n && forall i | 0 <= i < n :: s[i] == 0x20
  {
    seq(n, _ => 0x20)
  }

  /** `trimSpace`: without trailing spaces and zeros. */
  function TrimSpace(s: Str): Str {
    if s != [] && (s[|s| - 1] == 0x20 || s[|s| - 1] == 0) then TrimSpace(s[..|s| - 1]) else s
  }

  /** Trimming drops spaces and zeros at the end, and nothing else. */
  lemma {:induction false} TrimMeans(id: Str, pad: Str)
    requires id == [] || (id[|id| - 1] != 0x20 && id[|id| - 1] != 0)
    requires forall i | 0 <= i < |pad| :: pad[i] == 0x20 || pad[i] == 0
    ensures TrimSpace(id + pad) == id
    decreases |pad|
  {
    if pad == [] {
      assert id + pad == id;
    } else {
      assert (id + pad)[..|id + pad| - 1] == id + pad[..|pad| - 1] && (id + pad)[|id + pad| - 1] == pad[|pad| - 1];
      TrimMeans(id, pad[..|pad| - 1]);
    }
  }

  // ----- Writing descriptors -----

  /** Bytes 0 to 71: type, standard identifier, version, system and volume identifier. */
  function PvdHead(ident: Str): (s: Str)
    requires |ident| <= 32
    ensures |s| == 72
  {
    [VD_PRIMARY] + STANDARD_ID + [1] + [0] + Spaces(32) + (ident + Spaces(32 - |ident|))
  }

  /** Bytes 72 to 155: sizes and path tables. */
  function PvdSizes(total: u32, ptBytes: u32, lLBA: u32, mLBA: u32): (s: Str)
    ensures |s| == 84
  {
    Zeros(8) + Both32(total) + (Zeros(32) + Both16(1) + Both16(1) + Both16(2048) + Both32(ptBytes))
    + (LE32(lLBA) + Zeros(4) + BE32(mLBA) + Zeros(4))
  }

  type VolumeTime = s: Str | |s| == 17 witness Zeros(17)
  function UnsetTime(): VolumeTime { Digits0(16) + [0] }

  function Digits0(n: nat): (s: Str)
    ensures |s| == n
  {
    seq(n, _ => 0x30)
  }

  /** Bytes 190 to 881: free-text fields and dates. */
  function PvdTail(ts: VolumeTime): (s: Str)
    ensures |s| == 692
  {
    Spaces(623) + (ts + ts + UnsetTime() + UnsetTime()) + [1]
  }

  function Pvd(ident: Str, total: u32, ptBytes: u32, lLBA: u32, mLBA: u32, root: Str, ts: VolumeTime): (s: Str)
    requires |ident| <= 32 && |root| == 34
    ensures |s| == 2048
  {
    PvdHead(ident) + PvdSizes(total, ptBytes, lLBA, mLBA) + root + PvdTail(ts) + Zeros(1166)
  }

  function Terminator(): (s: Str)
    ensures |s| == 2048
  {
    [VD_TERMINATOR] + STANDARD_ID + [1] + Zeros(2041)
  }

  // ----- What a primary descriptor holds: section 8.4 of ECMA-119 -----

  /** The parts of a descriptor, by offset. */
  lemma PvdMeans(ident: Str, total: u32, ptBytes: u32, lLBA: u32, mLBA: u32, root: Str, ts: VolumeTime)
    requires |ident| <= 32 && |root| == 34
    ensures var s := Pvd(ident, total, ptBytes, lLBA, mLBA, root, ts);
            && s[..72] == PvdHead(ident) && s[72..156] == PvdSizes(total, ptBytes, lLBA, mLBA)
            && s[156..190] == root && s[190..882] == PvdTail(ts) && forall i | 882 <= i < 2048 :: s[i] == 0
  {
    var head, sizes, tail := PvdHead(ident), PvdSizes(total, ptBytes, lLBA, mLBA), PvdTail(ts);
    FourParts(head, sizes, root, tail, Zeros(1166));
  }

  lemma FourParts(a: Str, b: Str, c: Str, d: Str, e: Str)
    ensures var s := a + b + c + d + e;
            && s[..|a|] == a && s[|a|..|a| + |b|] == b && s[|a| + |b|..|a| + |b| + |c|] == c
            && s[|a| + |b| + |c|..|a| + |b| + |c| + |d|] == d
            && forall i | |a| + |b| + |c| + |d| <= i < |s| :: s[i] == e[i - (|a| + |b| + |c| + |d|)]
  {
  }

  /** Type 1, "CD001", version 1; then a blank system identifier and the volume identifier, padded with spaces. */
  lemma PvdHeadMeans(ident: Str)
    requires |ident| <= 32
    ensures var s := PvdHead(ident);
            && s[..8] == [1, 0x43, 0x44, 0x30, 0x30, 0x31, 1, 0] && (forall i | 8 <= i < 40 :: s[i] == 0x20)
            && s[40..40 + |ident|] == ident && forall i | 40 + |ident| <= i < 72 :: s[i] == 0x20
  {
  }

  /** From offset 72 on: the volume size in both byte orders at 80; set size, sequence number and block size at 120, 124
      and 128; the size of a path table at 132; the place of the little-endian table at 140, of the big-endian one at
      148; and nothing else. */
  lemma PvdSizesMeans(total: u32, ptBytes: u32, lLBA: u32, mLBA: u32)
    ensures var s := PvdSizes(total, ptBytes, lLBA, mLBA);
            && s[8..12] == LE32(total) && s[12..16] == BE32(total)
            && s[48..60] == [1, 0, 0, 1, 1, 0, 0, 1, 0, 8, 8, 0]
            && s[60..64] == LE32(ptBytes) && s[64..68] == BE32(ptBytes)
            && s[68..72] == LE32(lLBA) && s[76..80] == BE32(mLBA)
            && forall i | i in [0, 1, 2, 3, 4, 5, 6, 7, 72, 73, 74, 75, 80, 81, 82, 83] || 16 <= i < 48 :: s[i] == 0
  {
  }

  /** From offset 190 on: blank text fields; creation and modification time; expiration and effective time not given;
      file structure version 1. */
  lemma PvdTailMeans(ts: VolumeTime)
    ensures var s := PvdTail(ts);
            && (forall i | 0 <= i < 623 :: s[i] == 0x20) && s[623..640] == ts && s[640..657] == ts
            && (forall i | 657 <= i < 673 || 674 <= i < 690 :: s[i] == 0x30) && s[673] == s[690] == 0 && s[691] == 1
  {
    var a, b, c: Str := Spaces(623), ts + ts + UnsetTime() + UnsetTime(), [1];
    assert forall i | 0 <= i < 623 :: (a + b + c)[i] == a[i];
    assert forall i | 0 <= i < 68 :: (a + b + c)[623 + i] == b[i];
    assert b[..17] == ts && b[17..34] == ts;
    assert (a + b + c)[623..640] == b[..17] && (a + b + c)[640..657] == b[17..34];
  }

  lemma TerminatorMeans()
    ensures Terminator()[..8] == [255, 0x43, 0x44, 0x30, 0x30, 0x31, 1, 0]
    ensures forall i | 8 <= i < 2048 :: Terminator()[i] == 0
  {
  }

  method PutPvdHead(buf: array<byte>, ident: Str)
    requires buf.Length == 2048 && |ident| <= 32 && buf[..] == Zeros(2048)
    modifies buf
    ensures buf[..] == PvdHead(ident) + Zeros(1976)
  {
    assert buf[..] == [] + Zeros(2048);
    ghost var done := PutNext(buf, [], 0, [VD_PRIMARY]);
    done := PutNext(buf, done, 1, STANDARD_ID);
    done := PutNext(buf, done, 6, [1]);
    done := PutNext(buf, done, 8, Spaces(32));
    assert done == [VD_PRIMARY] + STANDARD_ID + [1] + [0] + Spaces(32);
    done := PutNext(buf, done, 40, ident + Spaces(32 - |ident|));
  }

  method PutPvdVolume(buf: array<byte>, ghost head: Str, total: u32, ptBytes: u32) returns (ghost done: Str)
    requires buf.Length == 2048 && |head| == 72 && buf[..] == head + Zeros(1976)
    modifies buf
    ensures done
         == head + (Zeros(8) + Both32(total) + (Zeros(32) + Both16(1) + Both16(1) + Both16(2048) + Both32(ptBytes)))
    ensures buf[..] == done + Zeros(1908)
  {
    ghost var size := PutNext(buf, head, 80, Both32(total));
    done := PutNext(buf, size, 120, Both16(1));
    done := PutNext(buf, done, 124, Both16(1));
    done := PutNext(buf, done, 128, Both16(2048));
    done := PutNext(buf, done, 132, Both32(ptBytes));
    assert done == size + (Zeros(32) + Both16(1) + Both16(1) + Both16(2048) + Both32(ptBytes));
    Assoc(head, Zeros(8) + Both32(total), Zeros(32) + Both16(1) + Both16(1) + Both16(2048) + Both32(ptBytes));
    Assoc(head, Zeros(8), Both32(total));
  }

  method PutPvdTables(buf: array<byte>, ghost before: Str, lLBA: u32, mLBA: u32)
    requires buf.Length == 2048 && |before| == 140 && buf[..] == before + Zeros(1908)
    modifies buf
    ensures buf[..] == before + (LE32(lLBA) + Zeros(4) + BE32(mLBA) + Zeros(4)) + Zeros(1892)
  {
    ghost var done := PutNext(buf, before, 140, LE32(lLBA));
    done := PutNext(buf, done, 148, BE32(mLBA));
    assert done + Zeros(4) == before + (LE32(lLBA) + Zeros(4) + BE32(mLBA) + Zeros(4));
    assert Zeros(1896) == Zeros(4) + Zeros(1892);
  }

  method PutPvdSizes(buf: array<byte>, ghost head: Str, total: u32, ptBytes: u32, lLBA: u32, mLBA: u32)
    requires buf.Length == 2048 && |head| == 72 && buf[..] == head + Zeros(1976)
    modifies buf
    ensures buf[..] == head + PvdSizes(total, ptBytes, lLBA, mLBA) + Zeros(1892)
  {
    ghost var done := PutPvdVolume(buf, head, total, ptBytes);
    PutPvdTables(buf, done, lLBA, mLBA);
    Assoc(head, Zeros(8) + Both32(total) + (Zeros(32) + Both16(1) + Both16(1) + Both16(2048) + Both32(ptBytes)),
          LE32(lLBA) + Zeros(4) + BE32(mLBA) + Zeros(4));
  }

  method PutPvdTail(buf: array<byte>, ghost front: Str, root: Str, ts: VolumeTime)
    requires buf.Length == 2048 && |front| == 156 && |root| == 34 && buf[..] == front + Zeros(1892)
    modifies buf
    ensures buf[..] == front + root + PvdTail(ts) + Zeros(1166)
  {
    ghost var done := PutNext(buf, front, 156, root);
    done := PutNext(buf, done, 190, Spaces(128));
    done := PutNext(buf, done, 318, Spaces(128));
    done := PutNext(buf, done, 446, Spaces(128));
    done := PutNext(buf, done, 574, Spaces(128));
    done := PutNext(buf, done, 702, Spaces(37));
    done := PutNext(buf, done, 739, Spaces(37));
    done := PutNext(buf, done, 776, Spaces(37));
    assert done == front + root + Spaces(623);
    done := PutNext(buf, done, 813, ts);
    done := PutNext(buf, done, 830, ts);
    done := PutNext(buf, done, 847, UnsetTime());
    done := PutNext(buf, done, 864, UnsetTime());
    done := PutNext(buf, done, 881, [1]);
    assert done == front + root + PvdTail(ts);
  }

  // ----- Reading descriptors -----

  datatype Volume = Volume(volumeID: Str, blockSize: u32, spaceSize: u32, pvdRoot: DirRecord, jolietRoot: DirRecord,
                           hasJoliet: bool)

  const NO_VOLUME := Volume([], 0, 0, EMPTY_RECORD, EMPTY_RECORD, false)

  /** UCS-2 levels 1, 2 and 3. */
  predicate IsJolietEscape(esc: Str) {
    |esc| >= 3 && esc[0] == 0x25 && esc[1] == 0x2F && esc[2] in {0x40, 0x43, 0x45}
  }

  /** What the scan knows: the descriptors decoded so far, and whether it has met the terminator. */
  datatype Progress = Progress(v: Volume, havePvd: bool, done: bool)

  /** One sector of the descriptor set. */
  function ReadDescriptor(buf: Str, s: Progress): (r: Result<Progress>)
    requires |buf| == 2048
  {
    if buf[1..6] != STANDARD_ID then Err(BadDescriptor)
    else if buf[0] == VD_PRIMARY then
      match ParseDirRecord(buf[156..])
      case Err(e) => Err(e)
      case Ok(root) =>
        var bs := Le16(buf[128..]);
        Ok(Progress(s.v.(volumeID := TrimSpace(buf[40..72]), spaceSize := Le32(buf[80..]),
                         blockSize := if bs == 0 then 2048 else bs, pvdRoot := root.0), true, false))
    else if buf[0] == VD_SUPPLEMENT then
      match ParseDirRecord(buf[156..])
      case Err(e) => Ok(s)
      case Ok(root) =>
        Ok(if IsJolietEscape(buf[88..120]) then s.(v := s.v.(jolietRoot := root.0, hasJoliet := true)) else s)
    else if buf[0] == VD_TERMINATOR then
      if s.havePvd then Ok(s.(done := true)) else Err(BadDescriptor)
    else Ok(s)
  }

  /** The descriptor set of an image, from `sector` on. */
  function ReadDescriptors(img: Str, sector: nat, s: Progress): Result<Volume>
    decreases MAX_DESCRIPTOR_SECTOR - sector
  {
    if sector >= MAX_DESCRIPTOR_SECTOR then Err(BadDescriptor)
    else if sector * 2048 + 2048 > |img| then Err(IO)
    else match ReadDescriptor(Slice(img, sector * 2048, 2048), s)
      case Err(e) => Err(e)
      case Ok(s') => if s'.done then Ok(s'.v) else ReadDescriptors(img, sector + 1, s')
  }

  function VolumeOf(img: Str): Result<Volume> {
    ReadDescriptors(img, SYSTEM_AREA_SECTORS, Progress(NO_VOLUME, false, false))
  }

  /** The same over any reader. */
  function ReadDescriptorsOver(rs: Reader, sector: nat, s: Progress): Result<Volume>
    decreases MAX_DESCRIPTOR_SECTOR - sector
  {
    if sector >= MAX_DESCRIPTOR_SECTOR then Err(BadDescriptor)
    else if rs.reply(sector * 2048, 2048).1 != NoErr || sector * 2048 + 2048 > |rs.data| then Err(IO)
    else match ReadDescriptor(Slice(rs.data, sector * 2048, 2048), s)
      case Err(e) => Err(e)
      case Ok(s') => if s'.done then Ok(s'.v) else ReadDescriptorsOver(rs, sector + 1, s')
  }

  function VolumeOver(rs: Reader): Result<Volume> {
    ReadDescriptorsOver(rs, SYSTEM_AREA_SECTORS, Progress(NO_VOLUME, false, false))
  }

  lemma {:induction false} ReadsTheDescriptors(rs: Reader, sector: nat, s: Progress)
    requires Conforms(rs)
    ensures var r := ReadDescriptorsOver(rs, sector, s);
            r.Ok? || Honest(rs) ==> r == ReadDescriptors(rs.data, sector, s)
    decreases MAX_DESCRIPTOR_SECTOR - sector
  {
    if sector < MAX_DESCRIPTOR_SECTOR && sector * 2048 + 2048 <= |rs.data| {
      var next := ReadDescriptor(Slice(rs.data, sector * 2048, 2048), s);
      if next.Ok? { ReadsTheDescriptors(rs, sector + 1, next.value); }
    }
  }

  /** `readVolume`: whatever it accepts is what the image holds, and over an honest reader it is exact. */
  method ReadVolume(rs: Reader) returns (r: Result<Volume>)
    requires Conforms(rs)
    ensures r == VolumeOver(rs)
    ensures r.Ok? || Honest(rs) ==> r == VolumeOf(rs.data)
  {
    var s := Progress(NO_VOLUME, false, false);
    ReadsTheDescriptors(rs, SYSTEM_AREA_SECTORS, s);
    for sector := SYSTEM_AREA_SECTORS to MAX_DESCRIPTOR_SECTOR
      invariant ReadDescriptorsOver(rs, sector, s) == VolumeOver(rs)
    {
      assert ConformsAt(rs, sector * 2048, 2048);
      var (m, e) := rs.reply(sector * 2048, 2048);
      if e != NoErr { return Err(IO); }
      var next := ReadDescriptor(Slice(rs.data, sector * 2048, 2048), s);
      if next.Err? { return Err(next.error); }
      s := next.value;
      if s.done { return Ok(s.v); }
    }
    return Err(BadDescriptor);
  }

  // ----- Reading undoes writing -----

  lemma SliceAcross(a: Str, t: Str, rest: Str)
    ensures (a + t + rest)[|a|..|a| + |t|] == t && (a + t + rest)[|a|..] == t + rest
  {
  }

  /** The reader's fields of a primary descriptor. */
  lemma PvdFields(ident: Str, total: u32, ptBytes: u32, lLBA: u32, mLBA: u32, root: Str, ts: VolumeTime)
    requires |ident| <= 32 && |root| == 34
    ensures var s := Pvd(ident, total, ptBytes, lLBA, mLBA, root, ts);
            && s[0] == VD_PRIMARY && s[1..6] == STANDARD_ID
            && s[40..72] == ident + Spaces(32 - |ident|)
            && Le32(s[80..]) == total && Le16(s[128..]) == 2048
            && s[156..] == root + (PvdTail(ts) + Zeros(1166))
  {
    var s := Pvd(ident, total, ptBytes, lLBA, mLBA, root, ts);
    var head, sizes, tail := PvdHead(ident), PvdSizes(total, ptBytes, lLBA, mLBA), PvdTail(ts) + Zeros(1166);
    assert s == head + (sizes + (root + tail));
    HeadFieldsOf(ident, sizes + (root + tail));
    assert s == (head + sizes) + root + tail;
    SliceAcross(head + sizes, root, tail);
    SizesFields(total, ptBytes, lLBA, mLBA, head, root + tail);
  }

  lemma HeadFieldsOf(ident: Str, rest: Str)
    requires |ident| <= 32
    ensures var s := PvdHead(ident) + rest;
            s[0] == VD_PRIMARY && s[1..6] == STANDARD_ID && s[40..72] == ident + Spaces(32 - |ident|)
  {
  }

  lemma SizesFields(total: u32, ptBytes: u32, lLBA: u32, mLBA: u32, head: Str, rest: Str)
    requires |head| == 72
    ensures var s := head + (PvdSizes(total, ptBytes, lLBA, mLBA) + rest);
              Le32(s[80..]) == total && Le16(s[128..]) == 2048
  {
    var sizes := PvdSizes(total, ptBytes, lLBA, mLBA);
    var s := head + (sizes + rest);
    assert forall i | 0 <= i < 4 :: s[80..][i] == LE32(total)[i];
    ByteOrders32(total, []);
    assert LE32(total) + [] == LE32(total);
    assert forall i | 0 <= i < 2 :: s[128..][i] == LE16(2048)[i];
  }

  /** An image whose sectors 16 and 17 are the builder's descriptors yields the builder's volume. */
  lemma VolumeReadsBack(img: Str, name: Text, total: u32, ptBytes: u32, lLBA: u32, mLBA: u32, lba: u32, size: u32,
                        stamp: Stamp, ts: VolumeTime)
    requires |img| >= 18 * 2048
    requires Slice(img, 16 * 2048, 2048)
          == Pvd(VolumeIdent(name), total, ptBytes, lLBA, mLBA, EncodeRecord([0], lba, size, true, stamp), ts)
    requires Slice(img, 17 * 2048, 2048) == Terminator()
    ensures VolumeOf(img)
         == Ok(Volume(VolumeIdent(name), 2048, total, Decoded([0], lba, size, true), EMPTY_RECORD, false))
  {
    var ident, root := VolumeIdent(name), EncodeRecord([0], lba, size, true, stamp);
    PvdFields(ident, total, ptBytes, lLBA, mLBA, root, ts);
    assert ident[|ident| - 1] in ident;
    TrimMeans(ident, Spaces(32 - |ident|));
    ParseEncoded([0], lba, size, true, stamp, PvdTail(ts) + Zeros(1166));
    var v := Volume(ident, 2048, total, Decoded([0], lba, size, true), EMPTY_RECORD, false);
    assert ReadDescriptor(Slice(img, 16 * 2048, 2048), Progress(NO_VOLUME, false, false))
        == Ok(Progress(v, true, false));
    assert ReadDescriptor(Terminator(), Progress(v, true, false)) == Ok(Progress(v, true, true)) by {
      assert Terminator()[1..6] == STANDARD_ID;
    }
    assert ReadDescriptors(img, 17, Progress(v, true, false)) == Ok(v);
  }

  // ----- What the reader takes from a descriptor -----

  /** A primary descriptor gives the volume identifier at 40, the size at 80, the block size at 128, 2048 standing in
      for none, and the root's record at 156. */
  lemma PrimaryMeans(buf: Str, s: Progress, root: Fields, stamp: Stamp, rest: Str)
    requires |buf| == 2048 && buf[0] == 1 && buf[1..6] == [0x43, 0x44, 0x30, 0x30, 0x31]
    requires root.Fit() && buf[156..] == root.Encoded(stamp) + rest
    ensures ReadDescriptor(buf, s)
         == Ok(Progress(Volume(TrimSpace(buf[40..72]), if Le16(buf[128..]) == 0 then 2048 else Le16(buf[128..]),
                               Le32(buf[80..]), root.Record(), s.v.jolietRoot, s.v.hasJoliet), true, false))
  {
    ParseFields(root, stamp, rest);
  }

  /** A supplementary descriptor with one of the three Joliet escape sequences at 88 gives the Joliet root at 156, and
      any other one nothing. */
  lemma SupplementaryMeans(buf: Str, s: Progress, root: Fields, stamp: Stamp, rest: Str)
    requires |buf| == 2048 && buf[0] == 2 && buf[1..6] == [0x43, 0x44, 0x30, 0x30, 0x31]
    requires root.Fit() && buf[156..] == root.Encoded(stamp) + rest
    ensures buf[88] == 0x25 && buf[89] == 0x2F && (buf[90] == 0x40 || buf[90] == 0x43 || buf[90] == 0x45)
            ==> ReadDescriptor(buf, s) == Ok(s.(v := s.v.(jolietRoot := root.Record(), hasJoliet := true)))
    ensures buf[88] != 0x25 || buf[89] != 0x2F || (buf[90] != 0x40 && buf[90] != 0x43 && buf[90] != 0x45)
            ==> ReadDescriptor(buf, s) == Ok(s)
  {
    ParseFields(root, stamp, rest);
    assert buf[88..120][0] == buf[88] && buf[88..120][1] == buf[89] && buf[88..120][2] == buf[90];
  }

  /** The terminator ends the set if there was a primary descriptor; a sector without "CD001" or a set without primary
      descriptor is refused; descriptors of other types are passed over. */
  lemma OtherDescriptorsMean(buf: Str, s: Progress)
    requires |buf| == 2048
    ensures buf[1..6] != [0x43, 0x44, 0x30, 0x30, 0x31] ==> ReadDescriptor(buf, s) == Err(BadDescriptor)
    ensures buf[1..6] == [0x43, 0x44, 0x30, 0x30, 0x31] && buf[0] == 255
            ==> ReadDescriptor(buf, s) == if s.havePvd then Ok(s.(done := true)) else Err(BadDescriptor)
    ensures buf[1..6] == [0x43, 0x44, 0x30, 0x30, 0x31] && buf[0] != 1 && buf[0] != 2 && buf[0] != 255
            ==> ReadDescriptor(buf, s) == Ok(s)
  {
  }

  /** A set of a primary, a Joliet and a terminating descriptor gives a volume with both roots. */
  lemma JolietVolumeReads(img: Str, primary: Fields, joliet: Fields, stamp: Stamp, rest: Str, rest': Str)
    requires |img| >= 19 * 2048 && primary.Fit() && joliet.Fit()
    requires var a, b, c := Slice(img, 16 * 2048, 2048), Slice(img, 17 * 2048, 2048), Slice(img, 18 * 2048, 2048);
             && a[..6] == [1, 0x43, 0x44, 0x30, 0x30, 0x31] && a[156..] == primary.Encoded(stamp) + rest
             && b[..6] == [2, 0x43, 0x44, 0x30, 0x30, 0x31] && b[156..] == joliet.Encoded(stamp) + rest'
             && b[88..90] == [0x25, 0x2F] && b[90] in {0x40, 0x43, 0x45}
             && c[..6] == [255, 0x43, 0x44, 0x30, 0x30, 0x31]
    ensures VolumeOf(img).Ok? && VolumeOf(img).value.hasJoliet
    ensures VolumeOf(img).value.pvdRoot == primary.Record() && VolumeOf(img).value.jolietRoot == joliet.Record()
  {
    var a, b, c := Slice(img, 16 * 2048, 2048), Slice(img, 17 * 2048, 2048), Slice(img, 18 * 2048, 2048);
    var s0 := Progress(NO_VOLUME, false, false);
    assert a[0] == a[..6][0] && b[0] == b[..6][0] && c[0] == c[..6][0];
    assert a[1..6] == a[..6][1..] && b[1..6] == b[..6][1..] && c[1..6] == c[..6][1..];
    assert b[88] == b[88..90][0] && b[89] == b[88..90][1];
    PrimaryMeans(a, s0, primary, stamp, rest);
    var s1 := ReadDescriptor(a, s0).value;
    SupplementaryMeans(b, s1, joliet, stamp, rest');
    var s2 := ReadDescriptor(b, s1).value;
    OtherDescriptorsMean(c, s2);
    assert ReadDescriptors(img, 18, s2) == Ok(s2.v);
    assert ReadDescriptors(img, 17, s1) == ReadDescriptors(img, 18, s2);
    assert ReadDescriptors(img, 16, s0) == ReadDescriptors(img, 17, s1);
  }

  /** A sector with "CD001" that is neither primary, supplementary nor a terminator. */
  predicate PassedOver(img: Str, sector: nat)
    requires sector * 2048 + 2048 <= |img|
  {
    var buf := Slice(img, sector * 2048, 2048);
    buf[1..6] == [0x43, 0x44, 0x30, 0x30, 0x31] && buf[0] != 1 && buf[0] != 2 && buf[0] != 255
  }

  lemma {:induction false} SkipTo(img: Str, from: nat, to: nat, s: Progress)
    requires from <= to <= 100 && |img| >= to * 2048 && !s.done
    requires forall k | from <= k < to :: PassedOver(img, k)
    ensures ReadDescriptors(img, from, s) == ReadDescriptors(img, to, s)
    decreases 100 - from
  {
    if from < to {
      assert PassedOver(img, from);
      OtherDescriptorsMean(Slice(img, from * 2048, 2048), s);
      SkipTo(img, from + 1, to, s);
    }
  }

  /** The scan looks at sectors 16 to 99: a set that ends in sector 99 is read, one that does not end by then is
      refused, whatever follows. */
  lemma ScanLimits(img: Str, s: Progress)
    requires |img| >= 100 * 2048 && !s.done && s.havePvd && forall k | 16 <= k < 99 :: PassedOver(img, k)
    ensures Slice(img, 99 * 2048, 2048)[..6] == [255, 0x43, 0x44, 0x30, 0x30, 0x31]
            ==> ReadDescriptors(img, 16, s) == Ok(s.v)
    ensures PassedOver(img, 99) ==> ReadDescriptors(img, 16, s) == Err(BadDescriptor)
  {
    var last := Slice(img, 99 * 2048, 2048);
    SkipTo(img, 16, 99, s);
    OtherDescriptorsMean(last, s);
    if last[..6] == [255, 0x43, 0x44, 0x30, 0x30, 0x31] {
      assert last[0] == last[..6][0] && last[1..6] == last[..6][1..];
    }
    assert PassedOver(img, 99) ==> ReadDescriptors(img, 99, s) == ReadDescriptors(img, 100, s);
  }
}
