/** Random access to an open file (openfile.go) and its agreement with whole-file reading. */
module OpenFiles {
  import opened Bytes
  import opened DirRecords
  import opened Readers

  /** One extent placed in the file's byte space. */
  datatype FileExtent = FileExtent(fileOff: nat, diskOff: nat, size: nat)

  /** Where placing `exts` end to end puts them; empty ones are dropped. */
  function Place(bs: nat, exts: seq<Extent>): seq<FileExtent> {
    if exts == [] then []
    else
      var e := exts[|exts| - 1];
      var before := exts[..|exts| - 1];
      Place(bs, before) + if e.size == 0 then [] else [FileExtent(TotalSize(before), e.lba * bs, e.size)]
  }

  /** Non-empty extents, contiguous from 0 to `covered`. */
  ghost predicate Contiguous(placed: seq<FileExtent>, covered: nat) {
    && (forall i | 0 <= i < |placed| :: placed[i].size > 0)
    && (forall i | 0 <= i < |placed| ::
          placed[i].fileOff == if i == 0 then 0 else placed[i - 1].fileOff + placed[i - 1].size)
    && covered == if placed == [] then 0 else placed[|placed| - 1].fileOff + placed[|placed| - 1].size
  }

  lemma ContiguousGrows(placed: seq<FileExtent>, covered: nat, diskOff: nat, size: nat)
    requires Contiguous(placed, covered) && size > 0
    ensures Contiguous(placed + [FileExtent(covered, diskOff, size)], covered + size)
  {
  }

  lemma {:induction false} PlaceContiguous(bs: nat, exts: seq<Extent>)
    ensures Contiguous(Place(bs, exts), TotalSize(exts))
  {
    if exts != [] {
      var e, before := exts[|exts| - 1], exts[..|exts| - 1];
      PlaceContiguous(bs, before);
      if e.size > 0 { ContiguousGrows(Place(bs, before), TotalSize(before), e.lba * bs, e.size); }
    }
  }

  /** `placed[i]` is the extent that holds file byte k. */
  predicate Holds(placed: seq<FileExtent>, i: int, k: nat) {
    0 <= i < |placed| && placed[i].fileOff <= k < placed[i].fileOff + placed[i].size
  }

  /** Byte k of the file is `b`: on disk inside the covered part, zero after it. */
  ghost predicate ByteIs(img: Str, placed: seq<FileExtent>, covered: nat, k: nat, b: byte) {
    if k >= covered then b == 0
    else exists i :: Holds(placed, i, k) && OnDisk(img, placed[i], k, b)
  }

  predicate OnDisk(img: Str, e: FileExtent, k: nat, b: byte)
    requires e.fileOff <= k
  {
    e.diskOff + (k - e.fileOff) < |img| && img[e.diskOff + (k - e.fileOff)] == b
  }

  lemma {:induction false} Ascending(placed: seq<FileExtent>, covered: nat, i: nat, j: nat)
    requires Contiguous(placed, covered) && i < j < |placed|
    ensures placed[i].fileOff + placed[i].size <= placed[j].fileOff
    decreases j
  {
    if i < j - 1 { Ascending(placed, covered, i, j - 1); }
  }

  lemma HolderUnique(placed: seq<FileExtent>, covered: nat, i: int, j: int, k: nat)
    requires Contiguous(placed, covered) && Holds(placed, i, k) && Holds(placed, j, k)
    ensures i == j
  {
    if i < j { Ascending(placed, covered, i, j); }
    if j < i { Ascending(placed, covered, j, i); }
  }

  /** The bytes of a file are determined by its extents. */
  lemma ByteUnique(img: Str, placed: seq<FileExtent>, covered: nat, k: nat, a: byte, b: byte)
    requires Contiguous(placed, covered)
    requires ByteIs(img, placed, covered, k, a) && ByteIs(img, placed, covered, k, b)
    ensures a == b
  {
    if k < covered {
      var i :| Holds(placed, i, k) && OnDisk(img, placed[i], k, a);
      var j :| Holds(placed, j, k) && OnDisk(img, placed[j], k, b);
      HolderUnique(placed, covered, i, j, k);
    }
  }

  // ----- sort.Search -----

  /** Binary search for the first extent that ends past `cur`; it is the one that holds byte `cur`. */
  method Search(placed: seq<FileExtent>, cur: nat, ghost covered: nat) returns (i: nat)
    requires Contiguous(placed, covered) && cur < covered
    ensures Holds(placed, i, cur)
  {
    var lo, hi := 0, |placed|;
    while lo < hi
      invariant 0 <= lo <= hi <= |placed|
      invariant lo > 0 ==> placed[lo - 1].fileOff + placed[lo - 1].size <= cur
      invariant hi < |placed| ==> cur < placed[hi].fileOff + placed[hi].size
    {
      var h := (lo + hi) / 2;
      if !(placed[h].fileOff + placed[h].size > cur) {
        lo := h + 1;
      } else {
        hi := h;
      }
    }
    i := lo;
  }

  // ----- Faults -----

  /** The part of extent `e` that lies in the file bytes `from`..`to`. */
  function Lo(e: FileExtent, from: nat): nat { Max(e.fileOff, from) }
  function Hi(e: FileExtent, to: nat): nat { Min(e.fileOff + e.size, to) }

  function PieceReply(rs: Reader, e: FileExtent, from: nat, to: nat): (nat, IoErr)
    requires Lo(e, from) < Hi(e, to)
  {
    rs.reply(e.diskOff + (Lo(e, from) - e.fileOff), Hi(e, to) - Lo(e, from))
  }

  /** Reading that part in one go reports an error, even if it delivers every byte. */
  predicate PieceFails(rs: Reader, e: FileExtent, from: nat, to: nat) {
    Lo(e, from) < Hi(e, to) && PieceReply(rs, e, from, to).1 != NoErr
  }

  predicate Faulty(rs: Reader, placed: seq<FileExtent>, from: nat, to: nat) {
    exists i :: 0 <= i < |placed| && PieceFails(rs, placed[i], from, to)
  }

  /** Extent i is the first whose part fails, and n bytes arrive up to and with it. */
  predicate StopsAt(rs: Reader, placed: seq<FileExtent>, from: nat, to: nat, i: nat, n: nat) {
    && i < |placed| && PieceFails(rs, placed[i], from, to)
    && (forall j | 0 <= j < i :: !PieceFails(rs, placed[j], from, to))
    && n == Lo(placed[i], from) - from + PieceReply(rs, placed[i], from, to).0
  }

  ghost predicate StopsWith(rs: Reader, placed: seq<FileExtent>, from: nat, to: nat, n: nat) {
    exists i: nat :: StopsAt(rs, placed, from, to, i, n)
  }

  /** `cur` is where a read of `from`..`to` starts, stops, or passes from one extent to the next. */
  predicate AtBoundary(placed: seq<FileExtent>, covered: nat, from: nat, to: nat, cur: nat) {
    cur == from || cur >= covered || cur == to || exists j :: 0 <= j < |placed| && placed[j].fileOff == cur
  }

  /** Every part that ends by `cur` was read without fault. */
  predicate FineUpTo(rs: Reader, placed: seq<FileExtent>, from: nat, to: nat, cur: nat) {
    forall j | 0 <= j < |placed| && Hi(placed[j], to) <= cur :: !PieceFails(rs, placed[j], from, to)
  }

  /** At a boundary, what remains of the extent that holds `cur` is its whole part. */
  lemma WholePart(placed: seq<FileExtent>, covered: nat, from: nat, to: nat, cur: nat, i: nat)
    requires Contiguous(placed, covered) && Holds(placed, i, cur) && from <= cur < to && cur < covered
    requires AtBoundary(placed, covered, from, to, cur)
    ensures Lo(placed[i], from) == cur
    ensures forall j | 0 <= j < i :: Hi(placed[j], to) <= cur
  {
    if cur != from {
      var j :| 0 <= j < |placed| && placed[j].fileOff == cur;
      HolderUnique(placed, covered, i, j, cur);
    }
    forall j | 0 <= j < i ensures Hi(placed[j], to) <= cur { Ascending(placed, covered, j, i); }
  }

  /** Having read the part in extent i without fault, all is fine up to its end. */
  lemma FineNext(rs: Reader, placed: seq<FileExtent>, covered: nat, from: nat, to: nat, cur: nat, i: nat)
    requires Contiguous(placed, covered) && Holds(placed, i, cur) && from <= cur < to
    requires FineUpTo(rs, placed, from, to, cur) && !PieceFails(rs, placed[i], from, to)
    ensures FineUpTo(rs, placed, from, to, Hi(placed[i], to))
            && AtBoundary(placed, covered, from, to, Hi(placed[i], to))
  {
    var next := Hi(placed[i], to);
    forall j | 0 <= j < |placed| && Hi(placed[j], to) <= next ensures !PieceFails(rs, placed[j], from, to) {
      if j < i { Ascending(placed, covered, j, i); }
      if j > i { Ascending(placed, covered, i, j); }
    }
    if i + 1 < |placed| { assert placed[i + 1].fileOff == placed[i].fileOff + placed[i].size; }
  }

  // ----- The open file -----

  class IsoFile {
    const rs: Reader
    const extents: seq<FileExtent>
    const size: nat
    const covered: nat
    var closed: bool

    constructor (rs: Reader, extents: seq<FileExtent>, size: nat, covered: nat)
      ensures this.rs == rs && this.extents == extents && this.size == size && this.covered == covered && !closed
    {
      this.rs, this.extents, this.size, this.covered, this.closed := rs, extents, size, covered, false;
    }

    ghost predicate Valid() {
      Conforms(rs) && Contiguous(extents, covered) && covered <= size
    }

    method Close()
      modifies this`closed
      ensures closed
    {
      closed := true;
    }

    /** Byte k of the file, as its extents give it. */
    ghost predicate FileByte(k: nat, b: byte) {
      ByteIs(rs.data, extents, covered, k, b)
    }

    /** The io.ReaderAt contract over this file. A read of the device that reports an error ends the call with an error,
        and what was delivered until then is still the file's. */
    method ReadAt(p: array<byte>, off: int) returns (n: nat, err: Option<Error>)
      requires Valid()
      modifies p
      ensures closed ==> n == 0 && err == Some(Closed)
      ensures !closed && off < 0 ==> n == 0 && err == Some(NegativeOffset)
      ensures !closed && off >= size ==> n == 0 && err == Some(Eof)
      ensures n <= p.Length && (n > 0 ==> 0 <= off && off + n <= size)
      ensures forall i | 0 <= i < n :: FileByte(off + i, p[i])
      ensures n < p.Length ==> err != None
      ensures !closed && 0 <= off < size && !Faulty(rs, extents, off, Min(off + p.Length, size)) ==>
                n == Min(p.Length, size - off) && err == if off + p.Length > size then Some(Eof) else None
      ensures !closed && 0 <= off < size && Faulty(rs, extents, off, Min(off + p.Length, size)) ==>
                err == Some(IO) && StopsWith(rs, extents, off, Min(off + p.Length, size), n)
    {
      if closed { return 0, Some(Closed); }
      if off < 0 { return 0, Some(NegativeOffset); }
      if off >= size { return 0, Some(Eof); }
      n, err := Fill(p, off, Min(off + p.Length, size));
    }

    /** The loop of `ReadAt`; `end` is where the wanted bytes end in the file. */
    method Fill(p: array<byte>, off: nat, ghost end: nat) returns (n: nat, err: Option<Error>)
      requires Valid() && off < size && end == Min(off + p.Length, size)
      modifies p
      ensures n <= p.Length && off + n <= end && forall i | 0 <= i < n :: FileByte(off + i, p[i])
      ensures if Faulty(rs, extents, off, end) then err == Some(IO) && StopsWith(rs, extents, off, end, n)
              else off + n == end && err == if n < p.Length then Some(Eof) else None
      ensures n < p.Length ==> err != None
    {
      n := 0;
      while n < p.Length
        invariant n <= p.Length && off + n <= end
        invariant forall i | 0 <= i < n :: FileByte(off + i, p[i])
        invariant AtBoundary(extents, covered, off, end, off + n) && FineUpTo(rs, extents, off, end, off + n)
        decreases p.Length - n
      {
        var cur := off + n;
        if cur >= size {
          AllFine(rs, extents, off, end);
          return n, Some(Eof);
        }
        var want := Min(p.Length - n, size - cur);
        if cur >= covered {
          ZeroFill(p, n, want);
          n := n + want;
          NothingPast(rs, extents, covered, off, end, cur);
          continue;
        }
        var ioErr;
        n, ioErr := ReadPiece(p, off, n, want, end);
        if ioErr != NoErr { return n, Some(IO); }
      }
      AllFine(rs, extents, off, end);
      return n, None;
    }

    /** One iteration inside the covered part: one read, of what is wanted of one extent. */
    method ReadPiece(p: array<byte>, off: nat, n: nat, want: nat, ghost end: nat) returns (n': nat, ioErr: IoErr)
      requires Valid() && off + n < covered && want > 0 && n + want <= p.Length && end == off + n + want
      requires forall i | 0 <= i < n :: FileByte(off + i, p[i])
      requires AtBoundary(extents, covered, off, end, off + n) && FineUpTo(rs, extents, off, end, off + n)
      modifies p
      ensures n <= n' && off + n' <= end && forall i | 0 <= i < n' :: FileByte(off + i, p[i])
      ensures ioErr == NoErr ==>
                n < n' && AtBoundary(extents, covered, off, end, off + n') && FineUpTo(rs, extents, off, end, off + n')
      ensures ioErr != NoErr ==> StopsWith(rs, extents, off, end, n') && Faulty(rs, extents, off, end)
    {
      var cur := off + n;
      var i := Search(extents, cur, covered);
      var e := extents[i];
      var chunk := Min(e.fileOff + e.size - cur, want);
      ExtentInside(extents, covered, i);
      WholePart(extents, covered, off, end, cur, i);
      var m;
      m, ioErr := ReadInto(rs, p, n, chunk, e.diskOff + (cur - e.fileOff));
      forall j | n <= j < n + m ensures FileByte(off + j, p[j]) {
        assert Holds(extents, i, off + j) && OnDisk(rs.data, e, off + j, p[j]);
      }
      n' := n + m;
      if ioErr != NoErr {
        assert StopsAt(rs, extents, off, end, i, n');
      } else {
        FineNext(rs, extents, covered, off, end, cur, i);
      }
    }
  }

  lemma AllFine(rs: Reader, placed: seq<FileExtent>, from: nat, to: nat)
    requires FineUpTo(rs, placed, from, to, to)
    ensures !Faulty(rs, placed, from, to)
  {
  }

  /** Past the covered part there is nothing left to read. */
  lemma NothingPast(rs: Reader, placed: seq<FileExtent>, covered: nat, from: nat, to: nat, cur: nat)
    requires Contiguous(placed, covered) && covered <= cur && FineUpTo(rs, placed, from, to, cur)
    ensures forall next: nat :: FineUpTo(rs, placed, from, to, next)
  {
    forall j | 0 <= j < |placed| ensures !PieceFails(rs, placed[j], from, to) { ExtentInside(placed, covered, j); }
  }

  /** An honest reader that holds all extents never fails. */
  lemma HonestNeverFaulty(rs: Reader, placed: seq<FileExtent>, from: nat, to: nat)
    requires Honest(rs) && forall e <- placed :: e.diskOff + e.size <= |rs.data|
    ensures !Faulty(rs, placed, from, to)
  {
    forall i | 0 <= i < |placed| ensures !PieceFails(rs, placed[i], from, to) { assert placed[i] in placed; }
  }

  lemma {:induction false} ExtentInside(placed: seq<FileExtent>, covered: nat, i: nat)
    requires Contiguous(placed, covered) && i < |placed|
    ensures placed[i].fileOff + placed[i].size <= covered
  {
    if i < |placed| - 1 { Ascending(placed, covered, i, |placed| - 1); }
  }

  method ZeroFill(p: array<byte>, at: nat, n: nat)
    requires at + n <= p.Length
    modifies p
    ensures forall i | at <= i < at + n :: p[i] == 0
    ensures forall i | 0 <= i < p.Length && !(at <= i < at + n) :: p[i] == old(p[i])
  {
    for i := 0 to n
      invariant forall j | at <= j < at + i :: p[j] == 0
      invariant forall j | 0 <= j < p.Length && !(at <= j < at + i) :: p[j] == old(p[j])
    {
      p[at + i] := 0;
    }
  }

  /** One read of the device into `p[at..at+n]`; past the delivered bytes the range may hold anything. */
  method ReadInto(rs: Reader, p: array<byte>, at: nat, n: nat, off: nat) returns (m: nat, err: IoErr)
    requires Conforms(rs) && at + n <= p.Length
    modifies p
    ensures (m, err) == rs.reply(off, n) && m <= n && (m < n ==> err != NoErr)
    ensures m > 0 ==> off + m <= |rs.data|
    ensures forall i | at <= i < at + m :: p[i] == rs.data[off + (i - at)]
    ensures forall i | 0 <= i < p.Length && !(at <= i < at + n) :: p[i] == old(p[i])
  {
    assert ConformsAt(rs, off, n);
    var r := rs.reply(off, n);
    m, err := r.0, r.1;
    for i := 0 to m
      invariant forall j | at <= j < at + i :: p[j] == rs.data[off + (j - at)]
      invariant forall j | 0 <= j < p.Length && !(at <= j < at + n) :: p[j] == old(p[j])
    {
      p[at + i] := rs.data[off + i];
    }
  }

  // ----- openRecord -----

  /** The checks `openRecord` makes. */
  function CheckOpen(rec: DirRecord, imageSize: int): Option<Error> {
    if rec.IsDir() then Some(NotRegular)
    else if imageSize >= 0 && rec.size > imageSize then Some(Corrupt)
    else if TotalSize(rec.ExtentList()) > rec.size then Some(Corrupt)
    else None
  }

  /** A file opens if it is no directory, is no larger than the image if that is known, and its extents do not exceed
      its size. */
  lemma OpenMeans(rec: DirRecord, imageSize: int)
    ensures CheckOpen(rec, imageSize) == None <==>
            && rec.flags / 2 % 2 == 0 && (imageSize >= 0 ==> rec.size <= imageSize)
            && TotalSize(rec.ExtentList()) <= rec.size
  {
  }

  method OpenRecord(rs: Reader, bs: nat, imageSize: int, rec: DirRecord) returns (r: Result<IsoFile>)
    requires Conforms(rs)
    ensures r.Ok? <==> CheckOpen(rec, imageSize) == None
    ensures r.Err? ==> CheckOpen(rec, imageSize) == Some(r.error)
    ensures r.Ok? ==> fresh(r.value) && r.value.Valid() && !r.value.closed && r.value.rs == rs
    ensures r.Ok? ==> r.value.size == rec.size && r.value.covered == TotalSize(rec.ExtentList())
    ensures r.Ok? ==> r.value.extents == Place(bs, rec.ExtentList())
  {
    if rec.IsDir() { return Err(NotRegular); }
    if imageSize >= 0 && rec.size > imageSize { return Err(Corrupt); }
    var exts := rec.ExtentList();
    var placed: seq<FileExtent> := [];
    var covered := 0;
    for i := 0 to |exts|
      invariant placed == Place(bs, exts[..i]) && covered == TotalSize(exts[..i]) <= rec.size
    {
      TakeOne(exts, i);
      TotalSizeMonotone(exts, i + 1);
      assert exts[..i + 1][..i] == exts[..i];
      var e := exts[i];
      if e.size != 0 {
        if covered + e.size > rec.size { return Err(Corrupt); }
        placed := placed + [FileExtent(covered, e.lba * bs, e.size)];
        covered := covered + e.size;
      }
    }
    assert exts[..|exts|] == exts;
    PlaceContiguous(bs, exts);
    var f := new IsoFile(rs, placed, rec.size, covered);
    return Ok(f);
  }

  // ----- Agreement with readFile -----

  /** Whatever `readFile` accepts, `openRecord` opens. */
  lemma OpensWhatReads(bs: nat, rec: DirRecord, imageSize: int)
    requires CheckFile(bs, rec, AllocCeiling(imageSize)) == None
    ensures CheckOpen(rec, imageSize) == None
  {
  }

  /** The placed extents of a file that reads lie in the image. */
  lemma {:induction false} PlacedInImage(img: Str, bs: nat, exts: seq<Extent>)
    requires AllInImage(img, bs, exts)
    ensures forall e <- Place(bs, exts) :: e.diskOff + e.size <= |img|
  {
    if exts != [] {
      PlacedInImage(img, bs, exts[..|exts| - 1]);
      assert exts[|exts| - 1] in exts;
    }
  }

  /** Byte k of the concatenated extents is byte k as the placed extents give it. */
  lemma {:induction false} ContentByte(img: Str, bs: nat, exts: seq<Extent>, k: nat)
    requires AllInImage(img, bs, exts) && k < TotalSize(exts)
    ensures ByteIs(img, Place(bs, exts), TotalSize(exts), k, Content(img, bs, exts)[k])
  {
    var n := |exts| - 1;
    var before, e := exts[..n], exts[n];
    var placed := Place(bs, exts);
    assert e in exts && InImage(img, bs, e);
    if k < TotalSize(before) {
      ContentByte(img, bs, before, k);
      var i :| Holds(Place(bs, before), i, k) && OnDisk(img, Place(bs, before)[i], k, Content(img, bs, before)[k]);
      assert placed[i] == Place(bs, before)[i];
      assert Holds(placed, i, k) && OnDisk(img, placed[i], k, Content(img, bs, exts)[k]);
    } else {
      var i := |Place(bs, before)|;
      assert placed[i] == FileExtent(TotalSize(before), e.lba * bs, e.size);
      assert Content(img, bs, exts)[k] == Piece(img, bs, e)[k - TotalSize(before)];
      assert Holds(placed, i, k) && OnDisk(img, placed[i], k, Content(img, bs, exts)[k]);
    }
  }

  /** Random access sees exactly the bytes of `readFile`'s result. */
  lemma FileBytesAgree(img: Str, bs: nat, rec: DirRecord, maxAlloc: int, k: nat, b: byte)
    requires ReadFile(img, bs, rec, maxAlloc).Ok? && k < rec.size
    ensures var exts := rec.ExtentList();
            ByteIs(img, Place(bs, exts), TotalSize(exts), k, b) <==> b == ReadFile(img, bs, rec, maxAlloc).value[k]
  {
    var exts := rec.ExtentList();
    PlaceContiguous(bs, exts);
    if k < TotalSize(exts) {
      ContentByte(img, bs, exts, k);
      if ByteIs(img, Place(bs, exts), TotalSize(exts), k, b) {
        ByteUnique(img, Place(bs, exts), TotalSize(exts), k, b, Content(img, bs, exts)[k]);
      }
    }
  }

  /** Bytes that are each the file's are its slice. */
  lemma SliceAgrees(img: Str, bs: nat, rec: DirRecord, maxAlloc: int, off: nat, s: Str)
    requires ReadFile(img, bs, rec, maxAlloc).Ok? && off + |s| <= rec.size
    requires var exts := rec.ExtentList();
             forall i | 0 <= i < |s| :: ByteIs(img, Place(bs, exts), TotalSize(exts), off + i, s[i])
    ensures s == ReadFile(img, bs, rec, maxAlloc).value[off..off + |s|]
  {
    forall i | 0 <= i < |s| ensures s[i] == ReadFile(img, bs, rec, maxAlloc).value[off + i] {
      FileBytesAgree(img, bs, rec, maxAlloc, off + i, s[i]);
    }
  }

  /** Random access refines whole-file reading over every reader: on every record `readFile` succeeds on, for every
      buffer and offset, one open and one read give that slice of the file, and EOF exactly past its end; or, exactly
      if some part of it is read with an error, what precedes the end of the first such part. */
  method OpenAndReadAt(rs: Reader, bs: nat, imageSize: int, rec: DirRecord, p: array<byte>, off: int)
    returns (n: nat, err: Option<Error>)
    requires Conforms(rs) && ReadFileOver(rs, bs, rec, AllocCeiling(imageSize)).Ok?
    modifies p
    ensures var file := ReadFileOver(rs, bs, rec, AllocCeiling(imageSize)).value;
            if off < 0 then n == 0 && err == Some(NegativeOffset)
            else if off >= |file| then n == 0 && err == Some(Eof)
            else && n <= Min(p.Length, |file| - off)
                 && p[..n] == file[off..off + n]
                 && var placed, end := Place(bs, rec.ExtentList()), Min(off + p.Length, |file|);
                    if Faulty(rs, placed, off, end) then err == Some(IO) && StopsWith(rs, placed, off, end, n)
                    else off + n == end && err == if off + p.Length > |file| then Some(Eof) else None
  {
    ReadsTheFile(rs, bs, rec, AllocCeiling(imageSize));
    OpensWhatReads(bs, rec, imageSize);
    var r := OpenRecord(rs, bs, imageSize, rec);
    n, err := r.value.ReadAt(p, off);
    if n > 0 { SliceAgrees(rs.data, bs, rec, AllocCeiling(imageSize), off, p[..n]); }
  }

  /** Over an honest reader no part fails: random access then always gives the slice. */
  lemma HonestSlices(rs: Reader, bs: nat, imageSize: int, rec: DirRecord, from: nat, to: nat)
    requires Honest(rs) && ReadFile(rs.data, bs, rec, AllocCeiling(imageSize)).Ok?
    ensures ReadFileOver(rs, bs, rec, AllocCeiling(imageSize)) == ReadFile(rs.data, bs, rec, AllocCeiling(imageSize))
    ensures !Faulty(rs, Place(bs, rec.ExtentList()), from, to)
  {
    ReadsTheFile(rs, bs, rec, AllocCeiling(imageSize));
    PlacedInImage(rs.data, bs, rec.ExtentList());
    HonestNeverFaulty(rs, Place(bs, rec.ExtentList()), from, to);
  }

  // ----- A full read with io.EOF -----

  lemma OneExtentPlaced(bs: nat, e: Extent)
    requires e.size > 0
    ensures Place(bs, [e]) == [FileExtent(0, e.lba * bs, e.size)] && TotalSize([e]) == e.size
  {
    assert [e][..0] == [];
  }

  lemma OneExtentFails(rs: Reader, e: FileExtent)
    requires e.fileOff == 0 && e.size > 0 && rs.reply(e.diskOff, e.size) == (e.size, EofErr)
    ensures Faulty(rs, [e], 0, e.size)
    ensures forall n: nat | StopsWith(rs, [e], 0, e.size, n) :: n == e.size
  {
    assert PieceFails(rs, [e][0], 0, e.size);
  }

  /** A device that returns io.EOF with the last full read: whole-file reading returns the file, random access to all of
      it delivers the same bytes and reports an error. */
  method FullReadWithEof(rs: Reader, bs: nat, imageSize: int, rec: DirRecord, p: array<byte>)
    returns (whole: Result<Str>, n: nat, err: Option<Error>)
    requires Conforms(rs) && CheckFile(bs, rec, AllocCeiling(imageSize)) == None && rec.extents == None
    requires 0 < rec.size == p.Length && !SizeUnknown(AllocCeiling(imageSize))
    requires rs.reply(rec.lba * bs, rec.size) == (rec.size, EofErr)
    modifies p
    ensures whole.Ok? && n == p.Length && p[..] == whole.value && err == Some(IO)
  {
    ghost var buf;
    whole, buf := ReadFileFrom(rs, bs, rec, AllocCeiling(imageSize));
    ghost var e := Extent(rec.lba, rec.size);
    OneExtentPlaced(bs, e);
    OneExtentFails(rs, FileExtent(0, rec.lba * bs, rec.size));
    n, err := OpenAndReadAt(rs, bs, imageSize, rec, p, 0);
    assert p[..n] == p[..];
  }
}
