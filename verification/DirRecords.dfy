/** Directory records (ECMA-119 section 9.1): the builder's encoder and the reader's decoder. */
module DirRecords {
  import opened Bytes
  import opened Identifiers

  const HEADER: nat := 33
  const FLAG_DIRECTORY: byte := 0x02
  const FLAG_MULTI_EXTENT: byte := 0x80

  datatype Extent = Extent(lba: u32, size: u32)

  datatype DirRecord = DirRecord(length: byte, lba: u32, size: u32, flags: byte, rawName: Str, name: Str,
                                 sysUse: Str, extents: Option<seq<Extent>>)
  {
    predicate IsDir() { flags / 0x02 % 2 == 1 }
    predicate IsMultiExtent() { flags / 0x80 == 1 }
    predicate IsSpecial() { IsSpecialName(rawName) }

    /** The file's extents in order: the merged list, else the record's own extent. */
    function ExtentList(): seq<Extent> {
      match extents
      case Some(e) => e
      case None => [Extent(lba, size)]
    }
  }

  const EMPTY_RECORD := DirRecord(0, 0, 0, 0, [], [], [], None)

  // ----- Decoding -----

  /** The record at the start of `buf` and the bytes it takes; a zero length byte is an empty slot. */
  function ParseDirRecord(buf: Str): (r: Result<(DirRecord, nat)>)
    ensures r.Ok? ==> r.value.1 <= |buf| && (r.value.1 == 0 <==> buf == [] || buf[0] == 0)
    ensures r.Ok? ==> r.value.0.extents.None?
  {
    if |buf| < 1 || buf[0] == 0 then Ok((EMPTY_RECORD, 0))
    else if buf[0] < HEADER || buf[0] > |buf| then Err(Corrupt)
    else if HEADER + buf[32] > buf[0] then Err(Corrupt)
    else
      var recLen, nameLen: int := buf[0], buf[32];
      var raw := buf[33..33 + nameLen];
      var suaStart := 33 + nameLen + (if nameLen % 2 == 0 then 1 else 0);
      var sysUse := if suaStart < recLen then buf[suaStart..recLen] else [];
      Ok((DirRecord(buf[0], Le32(buf[2..]), Le32(buf[10..]), buf[25], raw, CleanName(raw), sysUse, None), recLen))
  }

  // ----- Encoding -----

  function RecLen(idLen: nat): nat {
    HEADER + idLen + (if idLen % 2 == 0 then 1 else 0)
  }

  type Stamp = s: Str | |s| == 7 witness [0, 0, 0, 0, 0, 0, 0]

  function RecordHead(idLen: nat, lba: u32, size: u32, isDir: bool, stamp: Stamp): (h: Str)
    ensures |h| == HEADER
  {
    [RecLen(idLen) % 0x100] + [0] + Both32(lba) + Both32(size) + stamp
    + [if isDir then FLAG_DIRECTORY else 0] + [0, 0] + Both16(1) + [idLen % 0x100]
  }

  function EncodeRecord(id: Str, lba: u32, size: u32, isDir: bool, stamp: Stamp): (r: Str)
    ensures |r| == RecLen(|id|)
  {
    RecordHead(|id|, lba, size, isDir, stamp) + id + (if |id| % 2 == 0 then [0] else [])
  }

  /** `dirRecord`: fills a zeroed buffer field by field. */
  method BuildRecord(id: Str, lba: u32, size: u32, isDir: bool, stamp: Stamp) returns (rec: array<byte>)
    ensures fresh(rec) && rec[..] == EncodeRecord(id, lba, size, isDir, stamp)
  {
    var rl := RecLen(|id|);
    rec := new byte[rl](_ => 0);
    assert rec[..] == [] + Zeros(rl);
    ghost var head := PutHead(rec, |id|, lba, size, isDir, stamp);
    ghost var all := PutNext(rec, head, 33, id);
    assert Zeros(rl - |all|) == if |id| % 2 == 0 then [0] else [];
  }

  method PutHead(rec: array<byte>, idLen: nat, lba: u32, size: u32, isDir: bool, stamp: Stamp) returns (ghost h: Str)
    requires rec.Length == RecLen(idLen) && rec[..] == [] + Zeros(rec.Length)
    modifies rec
    ensures h == RecordHead(idLen, lba, size, isDir, stamp)
    ensures rec[..] == h + Zeros(rec.Length - |h|)
  {
    ghost var h0 := PutNext(rec, [], 0, [RecLen(idLen) % 0x100]);
    ghost var h1 := PutNext(rec, h0, 2, Both32(lba));
    ghost var h2 := PutNext(rec, h1, 10, Both32(size));
    ghost var h3 := PutNext(rec, h2, 18, stamp);
    assert h3 == [RecLen(idLen) % 0x100] + [0] + Both32(lba) + Both32(size) + stamp by { assert Zeros(1) == [0]; }
    ghost var h4 := PutNext(rec, h3, 25, [if isDir then FLAG_DIRECTORY else 0]);
    ghost var h5 := PutNext(rec, h4, 28, Both16(1));
    h := PutNext(rec, h5, 32, [idLen % 0x100]);
    assert Zeros(2) == [0, 0];
  }

  /** The record a reader should see for what `EncodeRecord` wrote. */
  function Decoded(id: Str, lba: u32, size: u32, isDir: bool): DirRecord {
    DirRecord(RecLen(|id|) % 0x100, lba, size, if isDir then FLAG_DIRECTORY else 0, id, CleanName(id), [], None)
  }

  // ----- Any record: section 9.1 of ECMA-119 -----

  /** The fields of any record, with its System Use Area and the byte that pads an identifier of even length. */
  datatype Fields = Fields(id: Str, lba: u32, size: u32, flags: byte, pad: byte, sysUse: Str)
  {
    /** A record is at most 255 bytes. */
    predicate Fit() { RecLen(|id|) + |sysUse| <= 0xFF }

    function Head(stamp: Stamp): (h: Str)
      requires Fit()
      ensures |h| == HEADER
    {
      [RecLen(|id|) + |sysUse|] + [0] + Both32(lba) + Both32(size) + stamp + [flags] + [0, 0] + Both16(1) + [|id|]
    }

    function Encoded(stamp: Stamp): (r: Str)
      requires Fit()
      ensures |r| == RecLen(|id|) + |sysUse|
    {
      Head(stamp) + id + (if |id| % 2 == 0 then [pad] else []) + sysUse
    }

    function Record(): DirRecord
      requires Fit()
    {
      DirRecord(RecLen(|id|) + |sysUse|, lba, size, flags, id, CleanName(id), sysUse, None)
    }
  }

  /** Where the fields of a written record stand: the numbers in both byte orders, the flag byte at 25, the identifier
      from 33 on, then its pad byte if its length is even, then the System Use Area. */
  lemma FieldsStand(f: Fields, stamp: Stamp, rest: Str)
    requires f.Fit()
    ensures var b := f.Encoded(stamp) + rest;
            && b[0] as int == 33 + |f.id| + (if |f.id| % 2 == 0 then 1 else 0) + |f.sysUse| && b[1] == 0
            && b[2..6] == LE32(f.lba) && b[6..10] == BE32(f.lba)
            && b[10..14] == LE32(f.size) && b[14..18] == BE32(f.size)
            && b[18..25] == stamp && b[25] == f.flags && b[26] == b[27] == 0
            && b[28..32] == [1, 0, 0, 1] && b[32] as int == |f.id|
  {
    var h, b := f.Head(stamp), f.Encoded(stamp) + rest;
    HeadBytes(f, stamp);
    assert forall i | 0 <= i < 33 :: b[i] == h[i];
    Four(b, 2);
    Four(b, 6);
    Four(b, 10);
    Four(b, 14);
    Four(b, 28);
    assert forall i | 0 <= i < 7 :: b[18..25][i] == b[18 + i] == h[18 + i] == stamp[i];
  }

  lemma Four(s: Str, o: nat)
    requires o + 4 <= |s|
    ensures s[o..o + 4] == [s[o], s[o + 1], s[o + 2], s[o + 3]]
  {
  }

  /** The header, byte by byte. */
  lemma HeadBytes(f: Fields, stamp: Stamp)
    requires f.Fit()
    ensures var h := f.Head(stamp);
            && h[0] as int == RecLen(|f.id|) + |f.sysUse| && h[1] == 0
            && [h[2], h[3], h[4], h[5]] == LE32(f.lba) && [h[6], h[7], h[8], h[9]] == BE32(f.lba)
            && [h[10], h[11], h[12], h[13]] == LE32(f.size) && [h[14], h[15], h[16], h[17]] == BE32(f.size)
            && (forall i | 0 <= i < 7 :: h[18 + i] == stamp[i]) && h[25] == f.flags && h[26] == h[27] == 0
            && [h[28], h[29], h[30], h[31]] == [1, 0, 0, 1] && h[32] as int == |f.id|
  {
  }

  lemma PartsStand(head: Str, id: Str, pad: Str, sua: Str, rest: Str)
    ensures var b, p := head + id + pad + sua + rest, |head| + |id| + |pad|;
            b[|head|..|head| + |id|] == id && b[p..p + |sua|] == sua
  {
  }

  lemma TailStands(f: Fields, stamp: Stamp, rest: Str)
    requires f.Fit()
    ensures var b, p := f.Encoded(stamp) + rest, RecLen(|f.id|);
            b[33..33 + |f.id|] == f.id && b[p..p + |f.sysUse|] == f.sysUse
  {
    PartsStand(f.Head(stamp), f.id, if |f.id| % 2 == 0 then [f.pad] else [], f.sysUse, rest);
  }

  lemma Le32At(b: Str, o: nat, v: u32)
    requires o + 4 <= |b| && b[o..o + 4] == LE32(v)
    ensures Le32(b[o..]) == v
  {
    assert b[o..] == LE32(v) + b[o + 4..];
    ByteOrders32(v, b[o + 4..]);
  }

  lemma ParseByFields(b: Str, f: Fields)
    requires f.Fit() && |b| >= RecLen(|f.id|) + |f.sysUse|
    requires b[0] == RecLen(|f.id|) + |f.sysUse| && b[32] == |f.id| && b[33..33 + |f.id|] == f.id
    requires b[RecLen(|f.id|)..RecLen(|f.id|) + |f.sysUse|] == f.sysUse
    requires b[25] == f.flags && Le32(b[2..]) == f.lba && Le32(b[10..]) == f.size
    ensures ParseDirRecord(b) == Ok((f.Record(), RecLen(|f.id|) + |f.sysUse|))
  {
  }

  /** Decoding gives back exactly the fields of any record, its flag byte and System Use Area among them, whatever
      follows it. */
  lemma ParseFields(f: Fields, stamp: Stamp, rest: Str)
    requires f.Fit()
    ensures var r := ParseDirRecord(f.Encoded(stamp) + rest);
            && r.Ok? && r.value.1 == 33 + |f.id| + (if |f.id| % 2 == 0 then 1 else 0) + |f.sysUse|
            && r.value.0 == DirRecord(r.value.1, f.lba, f.size, f.flags, f.id, CleanName(f.id), f.sysUse, None)
  {
    var b := f.Encoded(stamp) + rest;
    FieldsStand(f, stamp, rest);
    TailStands(f, stamp, rest);
    Le32At(b, 2, f.lba);
    Le32At(b, 10, f.size);
    ParseByFields(b, f);
  }

  /** What the builder writes: no System Use Area, a zero pad byte, and no flag but that of a directory. */
  function Bare(id: Str, lba: u32, size: u32, isDir: bool): Fields {
    Fields(id, lba, size, if isDir then 2 else 0, 0, [])
  }

  lemma BareEncoded(id: Str, lba: u32, size: u32, isDir: bool, stamp: Stamp)
    requires |id| <= 221
    ensures Bare(id, lba, size, isDir).Fit()
    ensures EncodeRecord(id, lba, size, isDir, stamp) == Bare(id, lba, size, isDir).Encoded(stamp)
  {
    var f := Bare(id, lba, size, isDir);
    assert f.Encoded(stamp) == f.Head(stamp) + id + (if |id| % 2 == 0 then [0] else []);
  }

  /** Decoding undoes encoding, whatever follows the record, for every identifier a record can hold. */
  lemma ParseEncoded(id: Str, lba: u32, size: u32, isDir: bool, stamp: Stamp, rest: Str)
    requires |id| <= 221
    ensures ParseDirRecord(EncodeRecord(id, lba, size, isDir, stamp) + rest)
         == Ok((Decoded(id, lba, size, isDir), RecLen(|id|)))
  {
    BareEncoded(id, lba, size, isDir, stamp);
    ParseFields(Bare(id, lba, size, isDir), stamp, rest);
  }

  /** A record is refused if it is shorter than its header, longer than what is left, or shorter than its identifier
      needs; a zero length is an empty slot; everything else decodes. */
  lemma ParseRefuses(buf: Str)
    ensures buf == [] || buf[0] == 0 ==> ParseDirRecord(buf) == Ok((EMPTY_RECORD, 0))
    ensures |buf| >= 1 && buf[0] != 0 && (buf[0] < 33 || buf[0] as int > |buf|) ==> ParseDirRecord(buf) == Err(Corrupt)
    ensures |buf| >= 1 && 33 <= buf[0] as int <= |buf|
            ==> if 33 + (buf[32] as int) > buf[0] as int then ParseDirRecord(buf) == Err(Corrupt)
                else ParseDirRecord(buf).Ok? && ParseDirRecord(buf).value.1 == buf[0] as int
  {
  }

  /** The flag bits: 2 a directory, 128 not the last extent of its file. */
  lemma FlagBits(rec: DirRecord)
    ensures rec.IsDir() <==> rec.flags as bv8 & 2 != 0
    ensures rec.IsMultiExtent() <==> rec.flags as bv8 & 0x80 != 0
  {
  }

  /** A length that was read is a byte. */
  lemma ParsedLength(buf: Str)
    ensures ParseDirRecord(buf).Ok? ==> ParseDirRecord(buf).value.1 < 0x100
  {
  }

  lemma ParseAlone(id: Str, lba: u32, size: u32, isDir: bool, stamp: Stamp)
    requires |id| <= 221
    ensures ParseDirRecord(EncodeRecord(id, lba, size, isDir, stamp))
         == Ok((Decoded(id, lba, size, isDir), RecLen(|id|)))
  {
    ParseEncoded(id, lba, size, isDir, stamp, []);
    assert EncodeRecord(id, lba, size, isDir, stamp) + [] == EncodeRecord(id, lba, size, isDir, stamp);
  }

  /** 221 bytes is the exact limit: one more and the length byte wraps below the header. */
  lemma ParseEncodedLimit(id: Str, lba: u32, size: u32, isDir: bool, stamp: Stamp)
    requires |id| < 0x100
    ensures ParseDirRecord(EncodeRecord(id, lba, size, isDir, stamp))
         == Ok((Decoded(id, lba, size, isDir), RecLen(|id|)))
       <==> |id| <= 221
  {
    if |id| <= 221 {
      ParseAlone(id, lba, size, isDir, stamp);
    } else {
      ParsedLength(EncodeRecord(id, lba, size, isDir, stamp));
    }
  }
}
