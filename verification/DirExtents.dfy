/** Directory extents: packing records into 2048-byte sectors (create.go) and scanning them back (read.go). */
module DirExtents {
  import opened Bytes
  import opened DirRecords
  import opened Readers
  import opened MultiExtents

  // ----- Packing -----

  /** Where a record of `rl` bytes goes when the last one ended at `pos`: never across a sector boundary. */
  function StartAt(pos: nat, rl: nat): (start: nat)
    requires rl > 0
    ensures pos <= start
  {
    if pos / 2048 != (pos + rl - 1) / 2048 then (pos / 2048 + 1) * 2048 else pos
  }

  function RoundUp(n: nat): (r: nat)
    ensures r % 2048 == 0 && n <= r < n + 2048
  {
    (n + 2047) / 2048 * 2048
  }

  /** Where the last of the records with these identifier lengths ends. */
  function PackedLen(idLens: seq<nat>): nat {
    if idLens == [] then 0
    else
      var rl := RecLen(idLens[|idLens| - 1]);
      StartAt(PackedLen(idLens[..|idLens| - 1]), rl) + rl
  }

  function ExtentSize(idLens: seq<nat>): nat { RoundUp(PackedLen(idLens)) }

  function Pack(recs: seq<Str>): Str
    requires NonEmpty(recs)
  {
    if recs == [] then []
    else PackOne(Pack(recs[..|recs| - 1]), recs[|recs| - 1])
  }

  predicate NonEmpty(recs: seq<Str>) {
    forall i | 0 <= i < |recs| :: recs[i] != []
  }

  function PackOne(front: Str, rec: Str): (b: Str)
    requires rec != []
    ensures |b| == StartAt(|front|, |rec|) + |rec| && front <= b
  {
    front + Zeros(StartAt(|front|, |rec|) - |front|) + rec
  }

  /** The bytes of a directory extent holding these records. */
  function ExtentBytes(recs: seq<Str>): Str
    requires NonEmpty(recs)
  {
    Pack(recs) + Zeros(RoundUp(|Pack(recs)|) - |Pack(recs)|)
  }

  /** The size computed from identifier lengths alone is the length of what is then written. */
  lemma {:induction false} PackLength(recs: seq<Str>, idLens: seq<nat>)
    requires |recs| == |idLens| && forall i | 0 <= i < |recs| :: |recs[i]| == RecLen(idLens[i])
    ensures NonEmpty(recs) && |Pack(recs)| == PackedLen(idLens) && |ExtentBytes(recs)| == ExtentSize(idLens)
  {
    if recs != [] { PackLength(recs[..|recs| - 1], idLens[..|recs| - 1]); }
  }

  lemma StartFacts(pos: nat, rl: nat)
    requires 0 < rl <= 2048
    ensures var start := StartAt(pos, rl);
            && start / 2048 == (start + rl - 1) / 2048
            && (start == pos || (pos % 2048 != 0 && start == (pos / 2048 + 1) * 2048 && start - pos < 2048))
  {
  }

  /** Where record i starts. */
  function StartOf(recs: seq<Str>, i: nat): nat
    requires i < |recs| && NonEmpty(recs)
  {
    StartAt(|Pack(recs[..i])|, |recs[i]|)
  }

  lemma {:induction false} PackPrefix(recs: seq<Str>, i: nat)
    requires i <= |recs| && NonEmpty(recs)
    ensures Pack(recs[..i]) <= Pack(recs) <= ExtentBytes(recs)
    decreases |recs| - i
  {
    if i == |recs| {
      assert recs[..i] == recs;
    } else {
      PackPrefix(recs, i + 1);
      assert recs[..i + 1][..i] == recs[..i];
    }
  }

  lemma PackOneShape(front: Str, rec: Str)
    requires rec != []
    ensures var start, b := StartAt(|front|, |rec|), PackOne(front, rec);
            && b[start..start + |rec|] == rec
            && (start > |front| ==> b[|front|] == 0)
  {
    var start := StartAt(|front|, |rec|);
    assert |front + Zeros(start - |front|)| == start;
  }

  /** Record i stands whole where it starts, and a gap before it starts with a zero byte and ends at a sector. */
  lemma RecordInPlace(recs: seq<Str>, i: nat)
    requires i < |recs| && NonEmpty(recs) && |recs[i]| <= 2048
    ensures var pos, start, b := |Pack(recs[..i])|, StartOf(recs, i), ExtentBytes(recs);
            && start + |recs[i]| == |Pack(recs[..i + 1])| <= |b|
            && b[start..start + |recs[i]|] == recs[i]
            && (start == pos || (start == (pos / 2048 + 1) * 2048 && b[pos] == 0))
  {
    var front, start, b := Pack(recs[..i]), StartOf(recs, i), ExtentBytes(recs);
    StartFacts(|front|, |recs[i]|);
    PackPrefix(recs, i + 1);
    assert recs[..i + 1][..i] == recs[..i];
    var p := PackOne(front, recs[i]);
    PackOneShape(front, recs[i]);
    assert p == b[..|p|];
    assert b[start..start + |recs[i]|] == p[start..start + |recs[i]|];
  }

  /** Section 6.8.1.1 of ECMA-119: every record lies whole inside one logical sector. */
  lemma NoRecordCrossesSector(recs: seq<Str>, i: nat)
    requires i < |recs| && NonEmpty(recs) && |recs[i]| <= 2048
    ensures var start, b := StartOf(recs, i), ExtentBytes(recs);
            && start + |recs[i]| <= |b| && b[start..start + |recs[i]|] == recs[i]
            && start / 2048 == (start + |recs[i]| - 1) / 2048
  {
    RecordInPlace(recs, i);
    StartFacts(|Pack(recs[..i])|, |recs[i]|);
  }

  // ----- Scanning -----

  /** The reader's loop: a zero length byte skips to the next block, anything else is a record. */
  function Scan(data: Str, bs: nat, pos: nat): Result<seq<DirRecord>>
    requires bs > 0
    decreases |data| - pos
  {
    if pos >= |data| then Ok([])
    else if data[pos] == 0 then
      NextBlock(pos, bs);
      Scan(data, bs, NextStart(pos, bs))
    else match ParseDirRecord(data[pos..])
      case Err(e) => Err(e)
      case Ok(parsed) => Prepend([parsed.0], Scan(data, bs, pos + parsed.1))
  }

  lemma NextBlock(pos: nat, bs: nat)
    requires bs > 0
    ensures (pos / bs + 1) * bs > pos
  {
    assert pos == pos / bs * bs + pos % bs;
    assert (pos / bs + 1) * bs == pos / bs * bs + bs;
  }

  function NextStart(pos: nat, bs: nat): nat
    requires bs > 0
  {
    NextBlock(pos, bs);
    (pos / bs + 1) * bs
  }

  lemma ScanZero(data: Str, bs: nat, pos: nat, next: nat)
    requires bs > 0 && pos < |data| && data[pos] == 0 && next == NextStart(pos, bs)
    ensures Scan(data, bs, pos) == Scan(data, bs, next)
  {
  }

  lemma ScanStep(data: Str, bs: nat, pos: nat, rec: DirRecord, n: nat, end: nat)
    requires bs > 0 && pos < |data| && data[pos] != 0 && ParseDirRecord(data[pos..]) == Ok((rec, n)) && end == pos + n
    ensures Scan(data, bs, pos) == Prepend([rec], Scan(data, bs, end))
  {
  }

  /** `rec` decodes to `d` whatever follows it. */
  ghost predicate DecodesTo(rec: Str, d: DirRecord) {
    && 0 < |rec| <= 2048 && rec[0] != 0
    && forall rest: Str :: DecodesBefore(rec, d, rest)
  }

  ghost predicate DecodesBefore(rec: Str, d: DirRecord, rest: Str) {
    ParseDirRecord(rec + rest) == Ok((d, |rec|))
  }

  ghost predicate AllDecode(recs: seq<Str>, ds: seq<DirRecord>) {
    |ds| == |recs| && forall i | 0 <= i < |recs| :: DecodesTo(recs[i], ds[i])
  }

  lemma ScanRecord(data: Str, pos: nat, end: nat, rec: Str, d: DirRecord)
    requires DecodesTo(rec, d) && pos + |rec| == end <= |data| && data[pos..end] == rec
    ensures Scan(data, 2048, pos) == Prepend([d], Scan(data, 2048, end))
  {
    assert ParseDirRecord(data[pos..]) == Ok((d, |rec|)) by {
      assert data[pos..] == rec + data[end..];
      assert DecodesBefore(rec, d, data[end..]);
    }
    assert data[pos] == data[pos..end][0];
    ScanStep(data, 2048, pos, d, |rec|, end);
  }

  /** An extent that goes on past its records ends with the sector they end in. */
  lemma TailLength(recs: seq<Str>)
    requires NonEmpty(recs)
    ensures var b, pos := ExtentBytes(recs), |Pack(recs)|;
            pos < |b| ==> b[pos] == 0 && |b| == NextStart(pos, 2048)
  {
  }

  lemma ScanTail(recs: seq<Str>)
    requires NonEmpty(recs)
    ensures Scan(ExtentBytes(recs), 2048, |Pack(recs)|) == Ok([])
  {
    TailLength(recs);
    if |Pack(recs)| < |ExtentBytes(recs)| {
      ScanZero(ExtentBytes(recs), 2048, |Pack(recs)|, NextStart(|Pack(recs)|, 2048));
    }
  }

  lemma ScanGapAndRecord(data: Str, pos: nat, start: nat, end: nat, rec: Str, d: DirRecord)
    requires DecodesTo(rec, d) && start + |rec| == end <= |data| && data[start..end] == rec
    requires start == pos || (start == (pos / 2048 + 1) * 2048 && data[pos] == 0)
    ensures Scan(data, 2048, pos) == Prepend([d], Scan(data, 2048, end))
  {
    if start != pos { ScanZero(data, 2048, pos, start); }
    ScanRecord(data, start, end, rec, d);
  }

  lemma ScanOne(recs: seq<Str>, i: nat, d: DirRecord)
    requires i < |recs| && NonEmpty(recs) && DecodesTo(recs[i], d)
    ensures Scan(ExtentBytes(recs), 2048, |Pack(recs[..i])|)
         == Prepend([d], Scan(ExtentBytes(recs), 2048, |Pack(recs[..i + 1])|))
  {
    RecordInPlace(recs, i);
    ScanGapAndRecord(ExtentBytes(recs), |Pack(recs[..i])|, StartOf(recs, i), |Pack(recs[..i + 1])|, recs[i], d);
  }

  lemma ScanThen(recs: seq<Str>, i: nat, d: DirRecord, rest: seq<DirRecord>)
    requires i < |recs| && NonEmpty(recs) && DecodesTo(recs[i], d)
    requires Scan(ExtentBytes(recs), 2048, |Pack(recs[..i + 1])|) == Ok(rest)
    ensures Scan(ExtentBytes(recs), 2048, |Pack(recs[..i])|) == Ok([d] + rest)
  {
    ScanOne(recs, i, d);
  }

  /** From the end of record i-1 the scan yields the records from i on. */
  lemma {:induction false} ScanFrom(recs: seq<Str>, ds: seq<DirRecord>, i: nat)
    requires i <= |recs| && NonEmpty(recs) && AllDecode(recs, ds)
    ensures Scan(ExtentBytes(recs), 2048, |Pack(recs[..i])|) == Ok(ds[i..])
    decreases |recs| - i
  {
    if i == |recs| {
      assert recs[..i] == recs && ds[i..] == [];
      ScanTail(recs);
    } else {
      assert ds[i..] == [ds[i]] + ds[i + 1..];
      ScanFrom(recs, ds, i + 1);
      ScanThen(recs, i, ds[i], ds[i + 1..]);
    }
  }

  /** Scanning a directory extent yields exactly its records, in order. */
  lemma ScanUndoesPacking(recs: seq<Str>, ds: seq<DirRecord>)
    requires AllDecode(recs, ds)
    ensures NonEmpty(recs) && Scan(ExtentBytes(recs), 2048, 0) == Ok(ds)
  {
    ScanFrom(recs, ds, 0);
    assert recs[..0] == [] && ds[0..] == ds;
  }

  // ----- readDirRecords -----

  /** The checks `readDirRecords` makes before it reads. */
  function CheckDir(bs: nat, rec: DirRecord, maxAlloc: int): Option<Error> {
    if !rec.IsDir() then Some(NotDirectory)
    else if rec.size > MAX_DIR_EXTENT then Some(Corrupt)
    else if !SizeFits(rec.size, maxAlloc) then Some(Corrupt)
    else if !ExtentFits(rec.lba * bs, rec.size, maxAlloc) then Some(Corrupt)
    else None
  }

  /** What the image's extent holds. */
  function ReadDirRecords(img: Str, bs: nat, rec: DirRecord, maxAlloc: int): Result<seq<DirRecord>>
    requires bs > 0
  {
    match CheckDir(bs, rec, maxAlloc)
    case Some(e) => Err(e)
    case None =>
      var e := Extent(rec.lba, rec.size);
      if !InImage(img, bs, e) then Err(IO) else DecodeDir(Piece(img, bs, e), bs)
  }

  function DecodeDir(data: Str, bs: nat): Result<seq<DirRecord>>
    requires bs > 0
  {
    match Scan(data, bs, 0)
    case Err(err) => Err(err)
    case Ok(raw) => Merge(raw)
  }

  /** When a directory reads: it is one, of at most 16 MiB, and its extent lies in the image and decodes. */
  lemma ReadDirMeans(img: Str, bs: nat, rec: DirRecord, size: int)
    requires bs > 0 && (size < 0 || size == |img|)
    ensures var r, off := ReadDirRecords(img, bs, rec, AllocCeiling(size)), rec.lba * bs;
            if rec.flags / 2 % 2 == 0 then r == Err(NotDirectory)
            else if rec.size > 0x100_0000 then r == Err(Corrupt)
            else if off + rec.size <= |img| then r == DecodeDir(img[off..off + rec.size], bs)
            else rec.size > 0 ==> r.Err?
  {
  }

  /** `readDirRecords` over any reader: the checks, then every read of the extent. */
  function ReadDirOver(rs: Reader, bs: nat, rec: DirRecord, maxAlloc: int): Result<seq<DirRecord>>
    requires bs > 0
  {
    match CheckDir(bs, rec, maxAlloc)
    case Some(e) => Err(e)
    case None =>
      var e := Extent(rec.lba, rec.size);
      if Arrives(rs, e.lba * bs, e.size, 0, 0, SizeUnknown(maxAlloc)) && InImage(rs.data, bs, e)
      then DecodeDir(Piece(rs.data, bs, e), bs) else Err(IO)
  }

  /** Whatever `readDirRecords` returns over any reader is the directory, and an honest reader returns it. */
  lemma ReadsTheDirectory(rs: Reader, bs: nat, rec: DirRecord, maxAlloc: int)
    requires bs > 0 && Conforms(rs)
    ensures var r := ReadDirOver(rs, bs, rec, maxAlloc);
            r.Ok? || Honest(rs) ==> r == ReadDirRecords(rs.data, bs, rec, maxAlloc)
  {
    ExtentArrivesInImage(rs, bs, Extent(rec.lba, rec.size), 0, 0, SizeUnknown(maxAlloc));
  }

  method ReadDirRecordsFrom(rs: Reader, bs: nat, rec: DirRecord, maxAlloc: int) returns (r: Result<seq<DirRecord>>)
    requires bs > 0 && Conforms(rs)
    ensures r == ReadDirOver(rs, bs, rec, maxAlloc)
    ensures r.Ok? || Honest(rs) ==> r == ReadDirRecords(rs.data, bs, rec, maxAlloc)
  {
    ReadsTheDirectory(rs, bs, rec, maxAlloc);
    var check := CheckDir(bs, rec, maxAlloc);
    if check.Some? { return Err(check.value); }
    var buf, err := ReadExtent(rs, bs, Extent(rec.lba, rec.size), Buffer([], 0), maxAlloc);
    if err != NoErr { return Err(IO); }
    assert buf.bytes == Piece(rs.data, bs, Extent(rec.lba, rec.size));
    var raw := ScanRecords(buf.bytes, bs);
    if raw.Err? { return Err(raw.error); }
    r := MergeMultiExtent(raw.value);
  }

  method ScanRecords(data: Str, bs: nat) returns (r: Result<seq<DirRecord>>)
    requires bs > 0
    ensures r == Scan(data, bs, 0)
  {
    var raw: seq<DirRecord> := [];
    var pos := 0;
    PrependNothing(Scan(data, bs, 0));
    while pos < |data|
      invariant Prepend(raw, Scan(data, bs, pos)) == Scan(data, bs, 0)
      decreases |data| - pos
    {
      if data[pos] == 0 {
        NextBlock(pos, bs);
        var next := NextStart(pos, bs);
        ScanZero(data, bs, pos, next);
        pos := next;
        continue;
      }
      var parsed := ParseDirRecord(data[pos..]);
      if parsed.Err? { return Err(parsed.error); }
      var child, next := parsed.value.0, pos + parsed.value.1;
      ScanStep(data, bs, pos, child, parsed.value.1, next);
      PrependTwice(raw, [child], Scan(data, bs, next));
      raw := raw + [child];
      pos := next;
    }
    assert raw + [] == raw;
    return Ok(raw);
  }

  // ----- Written directories -----

  /** One record a directory extent is to hold. */
  datatype Slot = Slot(id: Str, lba: u32, size: u32, isDir: bool) {
    function Encoded(stamp: Stamp): Str { EncodeRecord(id, lba, size, isDir, stamp) }
    function Record(): DirRecord { Decoded(id, lba, size, isDir) }
  }

  function EncodeAll(slots: seq<Slot>, stamp: Stamp): (recs: seq<Str>)
    ensures |recs| == |slots| && NonEmpty(recs)
    ensures forall i | 0 <= i < |slots| :: |recs[i]| == RecLen(|slots[i].id|)
  {
    seq(|slots|, i requires 0 <= i < |slots| => slots[i].Encoded(stamp))
  }

  function Records(slots: seq<Slot>): (ds: seq<DirRecord>)
    ensures |ds| == |slots|
  {
    seq(|slots|, i requires 0 <= i < |slots| => slots[i].Record())
  }

  lemma SlotDecodes(slot: Slot, stamp: Stamp)
    requires |slot.id| <= 221
    ensures DecodesTo(slot.Encoded(stamp), slot.Record())
  {
    forall rest: Str ensures DecodesBefore(slot.Encoded(stamp), slot.Record(), rest) {
      ParseEncoded(slot.id, slot.lba, slot.size, slot.isDir, stamp, rest);
    }
  }

  function EncodeFields(fs: seq<Fields>, stamp: Stamp): (recs: seq<Str>)
    requires forall f <- fs :: f.Fit()
    ensures |recs| == |fs| && NonEmpty(recs) && forall i | 0 <= i < |fs| :: recs[i] == fs[i].Encoded(stamp)
  {
    seq(|fs|, i requires 0 <= i < |fs| => fs[i].Encoded(stamp))
  }

  function FieldRecords(fs: seq<Fields>): (ds: seq<DirRecord>)
    requires forall f <- fs :: f.Fit()
    ensures |ds| == |fs| && forall i | 0 <= i < |fs| :: ds[i] == fs[i].Record()
  {
    seq(|fs|, i requires 0 <= i < |fs| => fs[i].Record())
  }

  lemma FieldsDecode(f: Fields, stamp: Stamp)
    requires f.Fit()
    ensures DecodesTo(f.Encoded(stamp), f.Record())
  {
    forall rest: Str ensures DecodesBefore(f.Encoded(stamp), f.Record(), rest) { ParseFields(f, stamp, rest); }
  }

  /** Any records at all, packed into a directory's extent, read back as they are but for merging. */
  lemma AnyDirectoryReadsBack(img: Str, rec: DirRecord, maxAlloc: int, fs: seq<Fields>, stamp: Stamp)
    requires forall f <- fs :: f.Fit()
    requires CheckDir(2048, rec, maxAlloc) == None && InImage(img, 2048, Extent(rec.lba, rec.size))
    requires Piece(img, 2048, Extent(rec.lba, rec.size)) == ExtentBytes(EncodeFields(fs, stamp))
    ensures ReadDirRecords(img, 2048, rec, maxAlloc) == Merge(FieldRecords(fs))
  {
    var recs, ds := EncodeFields(fs, stamp), FieldRecords(fs);
    forall i | 0 <= i < |fs| ensures DecodesTo(recs[i], ds[i]) {
      assert fs[i] in fs;
      FieldsDecode(fs[i], stamp);
    }
    ScanUndoesPacking(recs, ds);
  }

  /** A directory written to an image reads back as exactly its records, in order. */
  lemma DirectoryReadsBack(img: Str, rec: DirRecord, maxAlloc: int, slots: seq<Slot>, stamp: Stamp)
    requires forall s <- slots :: |s.id| <= 221
    requires CheckDir(2048, rec, maxAlloc) == None && InImage(img, 2048, Extent(rec.lba, rec.size))
    requires Piece(img, 2048, Extent(rec.lba, rec.size)) == ExtentBytes(EncodeAll(slots, stamp))
    ensures ReadDirRecords(img, 2048, rec, maxAlloc) == Ok(Records(slots))
  {
    var recs, ds := EncodeAll(slots, stamp), Records(slots);
    forall i | 0 <= i < |slots| ensures DecodesTo(recs[i], ds[i]) && Alone(ds[i]) {
      assert slots[i] in slots;
      SlotDecodes(slots[i], stamp);
    }
    ScanUndoesPacking(recs, ds);
    MergeAlone(ds);
  }
}
