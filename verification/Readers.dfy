/** Reading whole files out of an image (read.go). */
module Readers {
  import opened Bytes
  import opened DirRecords

  // ----- The backing io.ReaderAt -----

  datatype IoErr = NoErr | EofErr | Fault

  /** `data` is what the device holds; `reply(off, n)` is how many of the n bytes at off a read delivers,
      and with what error. */
  datatype Reader = Reader(data: Str, reply: (int, nat) -> (nat, IoErr))

  /** The io.ReaderAt contract: delivered bytes exist, and a short read carries an error. */
  ghost predicate Conforms(rs: Reader) {
    forall off: int, n: nat {:trigger ConformsAt(rs, off, n)} :: ConformsAt(rs, off, n)
  }

  predicate ConformsAt(rs: Reader, off: int, n: nat) {
    var (m, e) := rs.reply(off, n);
    m <= n && (m < n ==> e != NoErr) && (m > 0 ==> 0 <= off && off + m <= |rs.data|)
  }

  /** A reader that never fails inside its data, and reports no error on a full read. */
  ghost predicate Honest(rs: Reader) {
    && Conforms(rs)
    && forall off: nat, n: nat | off + n <= |rs.data| :: rs.reply(off, n) == (n, NoErr)
  }

  /** Over `rs`, `x` succeeds only under `cond` and only with `want`; over an honest reader whenever `cond` holds. */
  ghost predicate Yields<T>(rs: Reader, x: Result<T>, want: T, cond: bool) {
    && (x.Ok? ==> cond && x.value == want)
    && (Honest(rs) && cond ==> x.Ok?)
  }

  /** The honest reader over an in-memory image. */
  function MemReader(img: Str): (rs: Reader)
    ensures rs.data == img && Honest(rs)
  {
    Reader(img, (off: int, n: nat) =>
      if 0 <= off && off + n <= |img| then (n, NoErr)
      else if 0 <= off < |img| then (|img| - off, EofErr)
      else (0, EofErr))
  }

  // ----- Limits -----

  const MAX_UNKNOWN_ALLOC: nat := 0x4000_0000
  const MAX_DIR_EXTENT: nat := 0x100_0000
  const GROW_CHUNK: nat := 0x10_0000
  const MAX_INT: nat := 0x7FFF_FFFF_FFFF_FFFF

  function AllocCeiling(size: int): int { if size >= 0 then size else MAX_UNKNOWN_ALLOC }
  predicate SizeFits(n: int, maxAlloc: int) { 0 <= n <= maxAlloc && n <= MAX_INT }
  predicate SizeUnknown(maxAlloc: int) { maxAlloc == MAX_UNKNOWN_ALLOC }
  predicate ExtentFits(off: int, n: int, maxAlloc: int) {
    SizeUnknown(maxAlloc) || (off >= 0 && n >= 0 && off <= maxAlloc - n)
  }

  // ----- appendAt -----

  /** A Go byte slice: its contents and its capacity. */
  datatype Buffer = Buffer(bytes: Str, cap: nat) {
    ghost predicate Valid() { |bytes| <= cap }

    /** `slices.Grow`, with exact growth. */
    function Grow(n: nat): Buffer { Buffer(bytes, Max(cap, |bytes| + n)) }

    /** No more capacity than twice the bytes held, or 1 MiB beyond them. */
    ghost predicate Modest() { cap <= Max(2 * |bytes|, |bytes| + 0x10_0000) }
  }

  ghost predicate InData(rs: Reader, off: int, n: nat) { n == 0 || (0 <= off && off + n <= |rs.data|) }

  /** The `done` bytes at off. */
  function Run(rs: Reader, off: int, done: nat): (r: Str)
    requires InData(rs, off, done)
    ensures |r| == done
  {
    if done == 0 then [] else rs.data[off..off + done]
  }

  /** `out` is `dst` with the `done` bytes at off appended. */
  ghost predicate Appended(rs: Reader, dst: Buffer, off: int, done: nat, out: Buffer) {
    out.Valid() && InData(rs, off, done) && out.bytes == dst.bytes + Run(rs, off, done)
  }

  lemma AppendedBoth(rs: Reader, dst: Buffer, off: int, a: nat, mid: Buffer, b: nat, out: Buffer)
    requires Appended(rs, dst, off, a, mid) && Appended(rs, mid, off + a, b, out)
    ensures Appended(rs, dst, off, a + b, out)
  {
    assert Run(rs, off, a + b) == Run(rs, off, a) + Run(rs, off + a, b);
    Assoc(dst.bytes, Run(rs, off, a), Run(rs, off + a, b));
  }

  /** One read of n bytes that `appendAt` accepts: no error, or io.EOF with every byte delivered. */
  predicate Delivered(rs: Reader, off: int, n: nat) {
    var (m, e) := rs.reply(off, n);
    e == NoErr || (e == EofErr && m == n)
  }

  /** How many bytes `appendAt` asks for next, of `n` still missing. */
  function NextStep(n: nat, len: nat, cap: nat, grow: bool): (step: nat)
    requires n > 0
    ensures 0 < step <= n && (grow ==> len + step <= cap || step <= Max(GROW_CHUNK, len))
  {
    if grow && cap - len < n then Min(n, Max(GROW_CHUNK, len)) else n
  }

  /** Every read of `appendAt` is accepted, for n bytes at off and a slice of `len` bytes and capacity `cap`. */
  predicate Arrives(rs: Reader, off: int, n: nat, len: nat, cap: nat, grow: bool)
    decreases n
  {
    n == 0 ||
    var step := NextStep(n, len, cap, grow);
    Delivered(rs, off, step) && Arrives(rs, off + step, n - step, len + step, Max(cap, len + step), grow)
  }

  /** What arrives is there; and over an honest reader whatever is there arrives. */
  lemma {:induction false} ArrivesInData(rs: Reader, off: int, n: nat, len: nat, cap: nat, grow: bool)
    requires Conforms(rs)
    ensures Arrives(rs, off, n, len, cap, grow) ==> InData(rs, off, n)
    ensures Honest(rs) ==> (Arrives(rs, off, n, len, cap, grow) <==> InData(rs, off, n))
    decreases n
  {
    if n > 0 {
      var step := NextStep(n, len, cap, grow);
      assert ConformsAt(rs, off, step);
      ArrivesInData(rs, off + step, n - step, len + step, Max(cap, len + step), grow);
    }
  }

  lemma ExtentArrivesInImage(rs: Reader, bs: nat, e: Extent, len: nat, cap: nat, grow: bool)
    requires Conforms(rs)
    ensures Arrives(rs, e.lba * bs, e.size, len, cap, grow) ==> InImage(rs.data, bs, e)
    ensures Honest(rs) ==> (Arrives(rs, e.lba * bs, e.size, len, cap, grow) <==> InImage(rs.data, bs, e))
  {
    ArrivesInData(rs, e.lba * bs, e.size, len, cap, grow);
  }

  /** With the size known, everything arrives in one read. */
  lemma ArrivesAtOnce(rs: Reader, off: int, n: nat, len: nat, cap: nat)
    ensures Arrives(rs, off, n, len, cap, false) <==> n == 0 || Delivered(rs, off, n)
  {
    if n > 0 { assert Arrives(rs, off + n, 0, len + n, Max(cap, len + n), false); }
  }

  method AppendAt(rs: Reader, dst: Buffer, off: int, n: nat, maxAlloc: int)
    returns (out: Buffer, done: nat, err: IoErr)
    requires Conforms(rs) && dst.Valid()
    ensures Appended(rs, dst, off, done, out) && done <= n
    ensures err == NoErr ==> done == n
    ensures err == NoErr <==> Arrives(rs, off, n, |dst.bytes|, dst.cap, SizeUnknown(maxAlloc))
    ensures err == NoErr ==> out.cap == Max(dst.cap, |dst.bytes| + n)
    ensures SizeUnknown(maxAlloc) && dst.Modest() ==> out.Modest()
    ensures !SizeUnknown(maxAlloc) ==> out.cap <= Max(dst.cap, |dst.bytes| + n)
  {
    var grow := SizeUnknown(maxAlloc);
    out, done, err := dst, 0, NoErr;
    ghost var all := Arrives(rs, off, n, |dst.bytes|, dst.cap, grow);
    while done < n
      invariant err == NoErr && Appended(rs, dst, off, done, out) && Halfway(rs, dst, off, n, done, out, grow, all)
      invariant grow && dst.Modest() ==> out.Modest()
      decreases n - done
    {
      ghost var before := out;
      var m;
      out, m, err := ReadStep(rs, out, off + done, n - done, grow);
      AppendedBoth(rs, dst, off, done, before, m, out);
      if err != NoErr { return out, done + m, err; }
      HalfwayNext(rs, dst, off, n, done, before, m, out, grow, all);
      done := done + m;
    }
  }

  /** `done` of n bytes are there; if the rest are too, all are. */
  ghost predicate Halfway(rs: Reader, dst: Buffer, off: int, n: nat, done: nat, out: Buffer, grow: bool, all: bool) {
    && done <= n && |out.bytes| == |dst.bytes| + done && out.cap == Max(dst.cap, |out.bytes|)
    && Arrives(rs, off + done, n - done, |out.bytes|, out.cap, grow) == all
  }

  lemma HalfwayNext(rs: Reader, dst: Buffer, off: int, n: nat, done: nat, mid: Buffer, m: nat, out: Buffer, grow: bool,
                    all: bool)
    requires Halfway(rs, dst, off, n, done, mid, grow, all) && done + m <= n
    requires |out.bytes| == |dst.bytes| + done + m && out.cap == Max(mid.cap, |mid.bytes| + m)
    requires Arrives(rs, off + done, n - done, |mid.bytes|, mid.cap, grow)
        <==> Arrives(rs, off + done + m, n - done - m, |out.bytes|, out.cap, grow)
    ensures Halfway(rs, dst, off, n, done + m, out, grow, all)
  {
  }

  /** What one round's reply says of everything that is to arrive. */
  lemma ArrivesNext(rs: Reader, off: int, n: nat, len: nat, cap: nat, grow: bool, step: nat, m: nat, e: IoErr)
    requires Conforms(rs) && n > 0 && step == NextStep(n, len, cap, grow) && rs.reply(off, step) == (m, e)
    ensures m <= step <= n && InData(rs, off, m)
    ensures !Delivered(rs, off, step) ==> e != NoErr && !Arrives(rs, off, n, len, cap, grow)
    ensures Delivered(rs, off, step)
            ==> m == step && (Arrives(rs, off, n, len, cap, grow)
                              <==> Arrives(rs, off + m, n - m, len + m, Max(cap, len + m), grow))
  {
    assert ConformsAt(rs, off, step);
  }

  /** The reservation for one step is modest before any byte arrives. */
  lemma ModestStep(dst: Buffer, n: nat, step: nat, out: Buffer)
    requires dst.Valid() && dst.Modest() && n > 0 && step == NextStep(n, |dst.bytes|, dst.cap, true)
    requires out.cap == Max(dst.cap, |dst.bytes| + step) && |out.bytes| >= |dst.bytes|
    ensures out.Modest()
  {
  }

  /** One round of `appendAt`: reserves room for one step, then reads it. */
  method ReadStep(rs: Reader, dst: Buffer, off: int, n: nat, grow: bool) returns (out: Buffer, m: nat, err: IoErr)
    requires Conforms(rs) && dst.Valid() && n > 0
    ensures Appended(rs, dst, off, m, out) && m <= n
    ensures err == NoErr ==> m > 0 && out.cap == Max(dst.cap, |dst.bytes| + m)
    ensures err == NoErr ==> (Arrives(rs, off, n, |dst.bytes|, dst.cap, grow)
                              <==> Arrives(rs, off + m, n - m, |out.bytes|, out.cap, grow))
    ensures err != NoErr ==> !Arrives(rs, off, n, |dst.bytes|, dst.cap, grow)
    ensures grow && dst.Modest() ==> out.Modest()
    ensures out.cap <= Max(dst.cap, |dst.bytes| + n)
  {
    var step := n;
    if grow && dst.cap - |dst.bytes| < step {
      step := Min(step, Max(GROW_CHUNK, |dst.bytes|));
    }
    var (k, e) := rs.reply(off, step);
    ArrivesNext(rs, off, n, |dst.bytes|, dst.cap, grow, step, k, e);
    m, err := k, if e == EofErr && k == step then NoErr else e;
    out := Buffer(dst.bytes + Run(rs, off, m), dst.Grow(step).cap);
    if grow && dst.Modest() { ModestStep(dst, n, step, out); }
  }

  // ----- readFile -----

  predicate InImage(img: Str, bs: nat, e: Extent) {
    e.size == 0 || e.lba * bs + e.size <= |img|
  }

  /** The bytes one extent addresses. */
  function Piece(img: Str, bs: nat, e: Extent): (p: Str)
    requires InImage(img, bs, e)
    ensures |p| == e.size
  {
    if e.size == 0 then [] else Slice(img, e.lba * bs, e.size)
  }

  /** The extents' bytes, in order. */
  function Content(img: Str, bs: nat, exts: seq<Extent>): (c: Str)
    requires AllInImage(img, bs, exts)
    ensures |c| == TotalSize(exts)
  {
    if exts == [] then []
    else Content(img, bs, exts[..|exts| - 1]) + Piece(img, bs, exts[|exts| - 1])
  }

  function TotalSize(exts: seq<Extent>): nat {
    if exts == [] then 0 else TotalSize(exts[..|exts| - 1]) + exts[|exts| - 1].size
  }

  predicate AllInImage(img: Str, bs: nat, exts: seq<Extent>) {
    forall e <- exts :: InImage(img, bs, e)
  }

  /** Every extent passes `checkExtent`. */
  predicate AllFit(bs: nat, exts: seq<Extent>, maxAlloc: int) {
    forall e <- exts :: e.size == 0 || ExtentFits(e.lba * bs, e.size, maxAlloc)
  }

  /** The checks `readFile` makes before it reads a byte. */
  function CheckFile(bs: nat, rec: DirRecord, maxAlloc: int): Option<Error> {
    var exts := rec.ExtentList();
    if rec.IsDir() then Some(NotRegular)
    else if !SizeFits(rec.size, maxAlloc) then Some(Corrupt)
    else if TotalSize(exts) > rec.size || !AllFit(bs, exts, maxAlloc) then Some(Corrupt)
    else if TotalSize(exts) < rec.size && SizeUnknown(maxAlloc) then Some(Corrupt)
    else None
  }

  /** The whole file: its extents' bytes in order, zero-padded to its size. */
  function WholeFile(img: Str, bs: nat, rec: DirRecord): (c: Str)
    requires AllInImage(img, bs, rec.ExtentList()) && TotalSize(rec.ExtentList()) <= rec.size
    ensures |c| == rec.size
  {
    Content(img, bs, rec.ExtentList()) + Zeros(rec.size - TotalSize(rec.ExtentList()))
  }

  /** The file as the image has it: what `readFile` returns over an honest reader. */
  function ReadFile(img: Str, bs: nat, rec: DirRecord, maxAlloc: int): (r: Result<Str>)
    ensures r.Ok? <==> CheckFile(bs, rec, maxAlloc) == None && AllInImage(img, bs, rec.ExtentList())
    ensures r.Ok? ==> r.value == WholeFile(img, bs, rec)
  {
    match CheckFile(bs, rec, maxAlloc)
    case Some(e) => Err(e)
    case None =>
      if AllInImage(img, bs, rec.ExtentList()) then Ok(WholeFile(img, bs, rec)) else Err(IO)
  }

  /** Every read for extent i is accepted, when the extents before it have been read. */
  predicate ExtentArrives(rs: Reader, bs: nat, exts: seq<Extent>, i: nat, cap: nat, grow: bool)
    requires i < |exts|
  {
    var len := TotalSize(exts[..i]);
    Arrives(rs, exts[i].lba * bs, exts[i].size, len, Max(cap, len), grow)
  }

  predicate AllArrive(rs: Reader, bs: nat, exts: seq<Extent>, cap: nat, grow: bool) {
    forall i | 0 <= i < |exts| :: ExtentArrives(rs, bs, exts, i, cap, grow)
  }

  /** Every non-empty extent is delivered by one read. */
  predicate AllDelivered(rs: Reader, bs: nat, exts: seq<Extent>) {
    forall e <- exts :: e.size == 0 || Delivered(rs, e.lba * bs, e.size)
  }

  /** The capacity `readFile` starts with. */
  function InitialCap(size: nat, maxAlloc: int): nat { if SizeUnknown(maxAlloc) then 0 else size }

  /** `readFile` over any reader: the checks, then every read. */
  function ReadFileOver(rs: Reader, bs: nat, rec: DirRecord, maxAlloc: int): Result<Str> {
    var exts := rec.ExtentList();
    match CheckFile(bs, rec, maxAlloc)
    case Some(e) => Err(e)
    case None =>
      if AllArrive(rs, bs, exts, InitialCap(rec.size, maxAlloc), SizeUnknown(maxAlloc)) && AllInImage(rs.data, bs, exts)
      then Ok(WholeFile(rs.data, bs, rec)) else Err(IO)
  }

  lemma ArrivingIsThere(rs: Reader, bs: nat, exts: seq<Extent>, cap: nat, grow: bool)
    requires Conforms(rs)
    ensures AllArrive(rs, bs, exts, cap, grow) ==> AllInImage(rs.data, bs, exts)
    ensures Honest(rs) ==> (AllArrive(rs, bs, exts, cap, grow) <==> AllInImage(rs.data, bs, exts))
    ensures !grow ==> (AllArrive(rs, bs, exts, cap, grow) <==> AllDelivered(rs, bs, exts))
  {
    forall i | 0 <= i < |exts|
      ensures ExtentArrives(rs, bs, exts, i, cap, grow) ==> InImage(rs.data, bs, exts[i])
      ensures Honest(rs) ==> (ExtentArrives(rs, bs, exts, i, cap, grow) <==> InImage(rs.data, bs, exts[i]))
      ensures !grow ==> (ExtentArrives(rs, bs, exts, i, cap, grow)
                         <==> exts[i].size == 0 || Delivered(rs, exts[i].lba * bs, exts[i].size))
    {
      var len := TotalSize(exts[..i]);
      ExtentArrivesInImage(rs, bs, exts[i], len, Max(cap, len), grow);
      ArrivesAtOnce(rs, exts[i].lba * bs, exts[i].size, len, Max(cap, len));
    }
  }

  /** Whatever `readFile` returns over any reader is the file, an honest reader returns it whenever it is there, and
      with the size known it is returned exactly when the checks pass and every extent is delivered. */
  lemma ReadsTheFile(rs: Reader, bs: nat, rec: DirRecord, maxAlloc: int)
    requires Conforms(rs)
    ensures var r := ReadFileOver(rs, bs, rec, maxAlloc);
            && (r.Ok? || Honest(rs) ==> r == ReadFile(rs.data, bs, rec, maxAlloc))
            && (!SizeUnknown(maxAlloc)
                ==> (r.Ok? <==> CheckFile(bs, rec, maxAlloc) == None && AllDelivered(rs, bs, rec.ExtentList())))
  {
    ArrivingIsThere(rs, bs, rec.ExtentList(), InitialCap(rec.size, maxAlloc), SizeUnknown(maxAlloc));
  }

  lemma TakeOne(exts: seq<Extent>, i: nat)
    requires i < |exts|
    ensures TotalSize(exts[..i + 1]) == TotalSize(exts[..i]) + exts[i].size
  {
    assert exts[..i + 1][..i] == exts[..i];
  }

  lemma {:induction false} TotalSizeMonotone(exts: seq<Extent>, i: nat)
    requires i <= |exts|
    ensures TotalSize(exts[..i]) <= TotalSize(exts)
    decreases |exts| - i
  {
    if i == |exts| {
      assert exts[..i] == exts;
    } else {
      TakeOne(exts, i);
      TotalSizeMonotone(exts, i + 1);
    }
  }

  lemma ContentNext(img: Str, bs: nat, exts: seq<Extent>, i: nat)
    requires i < |exts| && AllInImage(img, bs, exts[..i]) && InImage(img, bs, exts[i])
    ensures AllInImage(img, bs, exts[..i + 1])
    ensures Content(img, bs, exts[..i + 1]) == Content(img, bs, exts[..i]) + Piece(img, bs, exts[i])
  {
    assert exts[..i + 1][..i] == exts[..i];
  }

  /** The validation loop: the covered total, or None when `readFile` reports corruption. */
  method CoverExtents(bs: nat, exts: seq<Extent>, total: nat, maxAlloc: int) returns (r: Option<nat>)
    ensures r == if TotalSize(exts) <= total && AllFit(bs, exts, maxAlloc) then Some(TotalSize(exts)) else None
  {
    var covered := 0;
    for i := 0 to |exts|
      invariant covered == TotalSize(exts[..i]) <= total && AllFit(bs, exts[..i], maxAlloc)
    {
      TakeOne(exts, i);
      var e := exts[i];
      if e.size != 0 {
        TotalSizeMonotone(exts, i + 1);
        if covered + e.size > total { return None; }
        if !ExtentFits(e.lba * bs, e.size, maxAlloc) {
          assert e in exts;
          return None;
        }
        covered := covered + e.size;
      }
    }
    assert exts[..|exts|] == exts;
    return Some(covered);
  }

  /** `readFile`; `buf` is the output slice when the call returned. */
  method ReadFileFrom(rs: Reader, bs: nat, rec: DirRecord, maxAlloc: int) returns (r: Result<Str>, ghost buf: Buffer)
    requires Conforms(rs)
    ensures r == ReadFileOver(rs, bs, rec, maxAlloc)
    ensures r.Ok? || Honest(rs) ==> r == ReadFile(rs.data, bs, rec, maxAlloc)
    ensures !SizeUnknown(maxAlloc)
            ==> (r.Ok? <==> CheckFile(bs, rec, maxAlloc) == None && AllDelivered(rs, bs, rec.ExtentList()))
    ensures SizeUnknown(maxAlloc) ==> buf.Modest()
    ensures !SizeUnknown(maxAlloc) ==> buf.cap == 0 || buf.cap <= rec.size <= maxAlloc
  {
    ReadsTheFile(rs, bs, rec, maxAlloc);
    buf := Buffer([], 0);
    if rec.IsDir() { return Err(NotRegular), buf; }
    var exts := rec.ExtentList();
    var total := rec.size;
    if !SizeFits(total, maxAlloc) { return Err(Corrupt), buf; }
    var cover := CoverExtents(bs, exts, total, maxAlloc);
    if cover == None { return Err(Corrupt), buf; }
    var covered := cover.value;
    if covered < total && SizeUnknown(maxAlloc) { return Err(Corrupt), buf; }
    buf := Buffer([], InitialCap(total, maxAlloc));
    var data, err := ReadExtents(rs, bs, exts, Buffer([], InitialCap(total, maxAlloc)), total, maxAlloc);
    buf := data;
    if err != NoErr { return Err(IO), buf; }
    // Bytes past what the extents cover are the zeros of the fresh allocation.
    return Ok(data.bytes + Zeros(total - |data.bytes|)), buf;
  }

  method ReadExtent(rs: Reader, bs: nat, e: Extent, data: Buffer, maxAlloc: int) returns (out: Buffer, err: IoErr)
    requires Conforms(rs) && data.Valid()
    ensures out.Valid()
    ensures err == NoErr ==> InImage(rs.data, bs, e) && out.bytes == data.bytes + Piece(rs.data, bs, e)
    ensures err == NoErr ==> out.cap == Max(data.cap, |data.bytes| + e.size)
    ensures err == NoErr <==> Arrives(rs, e.lba * bs, e.size, |data.bytes|, data.cap, SizeUnknown(maxAlloc))
    ensures SizeUnknown(maxAlloc) && data.Modest() ==> out.Modest()
    ensures !SizeUnknown(maxAlloc) ==> out.cap <= Max(data.cap, |data.bytes| + e.size)
  {
    out, err := data, NoErr;
    if e.size != 0 {
      var done;
      out, done, err := AppendAt(rs, data, e.lba * bs, e.size, maxAlloc);
    }
  }

  /** The reading loop of `readFile`. */
  method ReadExtents(rs: Reader, bs: nat, exts: seq<Extent>, empty: Buffer, total: nat, maxAlloc: int)
    returns (data: Buffer, err: IoErr)
    requires Conforms(rs) && TotalSize(exts) <= total && empty == Buffer([], InitialCap(total, maxAlloc))
    ensures err == NoErr <==> AllArrive(rs, bs, exts, empty.cap, SizeUnknown(maxAlloc))
    ensures err == NoErr ==> AllInImage(rs.data, bs, exts) && data.bytes == Content(rs.data, bs, exts)
    ensures SizeUnknown(maxAlloc) ==> data.Modest()
    ensures !SizeUnknown(maxAlloc) ==> data.cap <= total
  {
    data, err := empty, NoErr;
    for i := 0 to |exts|
      invariant err == NoErr && ReadUpTo(rs, bs, exts, i, empty.cap, SizeUnknown(maxAlloc), data)
      invariant SizeUnknown(maxAlloc) ==> data.Modest()
      invariant !SizeUnknown(maxAlloc) ==> data.cap <= total
    {
      data, err := ReadNextExtent(rs, bs, exts, i, data, empty.cap, total, maxAlloc);
      if err != NoErr { return; }
    }
    assert exts[..|exts|] == exts;
  }

  /** The first i extents have been read into `data`. */
  ghost predicate ReadUpTo(rs: Reader, bs: nat, exts: seq<Extent>, i: nat, cap: nat, grow: bool, data: Buffer)
    requires i <= |exts|
  {
    && data.Valid() && data.cap == Max(cap, TotalSize(exts[..i]))
    && AllInImage(rs.data, bs, exts[..i]) && data.bytes == Content(rs.data, bs, exts[..i])
    && forall j {:trigger ExtentArrives(rs, bs, exts, j, cap, grow)} | 0 <= j < i ::
         ExtentArrives(rs, bs, exts, j, cap, grow)
  }

  /** Extent i, after those before it. */
  method ReadNextExtent(rs: Reader, bs: nat, exts: seq<Extent>, i: nat, data: Buffer, ghost cap: nat, ghost total: nat,
                        maxAlloc: int)
    returns (out: Buffer, err: IoErr)
    requires Conforms(rs) && i < |exts| && TotalSize(exts) <= total
    requires ReadUpTo(rs, bs, exts, i, cap, SizeUnknown(maxAlloc), data)
    ensures err == NoErr <==> ExtentArrives(rs, bs, exts, i, cap, SizeUnknown(maxAlloc))
    ensures err == NoErr ==> ReadUpTo(rs, bs, exts, i + 1, cap, SizeUnknown(maxAlloc), out)
    ensures SizeUnknown(maxAlloc) && data.Modest() ==> out.Modest()
    ensures !SizeUnknown(maxAlloc) && data.cap <= total ==> out.cap <= total
  {
    TakeOne(exts, i);
    TotalSizeMonotone(exts, i + 1);
    out, err := ReadExtent(rs, bs, exts[i], data, maxAlloc);
    if err == NoErr { ContentNext(rs.data, bs, exts, i); }
  }

  // ----- What whole-file reading gives, byte by byte -----

  lemma {:induction false} ContentPrefix(img: Str, bs: nat, exts: seq<Extent>, i: nat)
    requires AllInImage(img, bs, exts) && i <= |exts|
    ensures AllInImage(img, bs, exts[..i]) && Content(img, bs, exts[..i]) <= Content(img, bs, exts)
    decreases |exts| - i
  {
    if i == |exts| {
      assert exts[..i] == exts;
    } else {
      assert exts[i] in exts;
      ContentPrefix(img, bs, exts, i + 1);
      ContentNext(img, bs, exts, i);
    }
  }

  lemma SliceOfAppended(s: Str, a: Str, b: Str)
    requires a + b <= s
    ensures s[|a|..|a| + |b|] == b
  {
    assert s[..|a + b|] == a + b;
  }

  lemma ContentAt(img: Str, bs: nat, exts: seq<Extent>, i: nat)
    requires AllInImage(img, bs, exts) && i < |exts|
    ensures exts[i] in exts && TotalSize(exts[..i]) + exts[i].size <= TotalSize(exts)
    ensures Content(img, bs, exts)[TotalSize(exts[..i])..TotalSize(exts[..i]) + exts[i].size]
         == Piece(img, bs, exts[i])
  {
    assert exts[i] in exts;
    ContentPrefix(img, bs, exts, i);
    ContentPrefix(img, bs, exts, i + 1);
    ContentNext(img, bs, exts, i);
    SliceOfAppended(Content(img, bs, exts), Content(img, bs, exts[..i]), Piece(img, bs, exts[i]));
  }

  /** The file is its extents' bytes one after the other, each extent's from block `lba` on. */
  lemma WholeFileMeans(img: Str, bs: nat, rec: DirRecord, i: nat, e: Extent, at: nat, off: nat)
    requires AllInImage(img, bs, rec.ExtentList()) && TotalSize(rec.ExtentList()) <= rec.size
    requires i < |rec.ExtentList()| && e == rec.ExtentList()[i] && e.size > 0
    requires at == TotalSize(rec.ExtentList()[..i]) && off == e.lba * bs
    ensures at + e.size <= rec.size && off + e.size <= |img|
    ensures WholeFile(img, bs, rec)[at..at + e.size] == img[off..off + e.size]
  {
    var exts, file := rec.ExtentList(), WholeFile(img, bs, rec);
    var content := Content(img, bs, exts);
    ContentAt(img, bs, exts, i);
    assert file[..|content|] == content;
    assert file[at..at + e.size] == content[at..at + e.size];
  }

  /** What the extents do not cover is zero; a record that lists no extents has its own. */
  lemma TailIsZero(img: Str, bs: nat, rec: DirRecord, k: nat)
    requires AllInImage(img, bs, rec.ExtentList()) && TotalSize(rec.ExtentList()) <= k < rec.size
    ensures WholeFile(img, bs, rec)[k] == 0
    ensures rec.ExtentList() == if rec.extents.Some? then rec.extents.value else [Extent(rec.lba, rec.size)]
  {
  }

  /** When a file reads: it is no directory, its extents do not exceed its size and lie in the image, and, if the image
      size is not known, they make up its size and that is at most 1 GiB. (1 GiB is also taken for not known.) */
  lemma ReadFileMeans(img: Str, bs: nat, rec: DirRecord, size: int)
    requires size < 0 || size == |img|
    ensures var exts := rec.ExtentList();
            ReadFile(img, bs, rec, AllocCeiling(size)).Ok? <==>
            && rec.flags / 2 % 2 == 0 && TotalSize(exts) <= rec.size
            && (forall e <- exts | e.size > 0 :: e.lba * bs + e.size <= |img|)
            && (if size < 0 || size == 0x4000_0000 then TotalSize(exts) == rec.size <= 0x4000_0000
                else rec.size <= size)
  {
  }
}
