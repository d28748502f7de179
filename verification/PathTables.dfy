/** Path tables: `pathTable` (create.go) and the decoding ECMA-119 sections 6.9 and 9.4 promise. */
module PathTables {
  import opened Bytes
  import opened DirExtents
  import opened Trees
  import opened Plans
  import opened Builders
  import opened Siblings
  import opened Naming
  import opened Placing
  import opened Layouts

  /** A path-table record: a directory's identifier, its extent, and the number of its parent, counting from one. */
  datatype PtRecord = PtRecord(id: Str, lba: u32, parent: nat)

  // ----- Encoding -----

  function PtNumbers(lba: u32, parent: nat, msb: bool): (s: Str)
    ensures |s| == 6
  {
    if msb then BE32(lba) + BE16(parent % 0x1_0000) else LE32(lba) + LE16(parent % 0x1_0000)
  }

  function PtEntry(r: PtRecord, msb: bool): (e: Str)
    ensures |e| == PtEntryLen(|r.id|)
  {
    [|r.id| % 0x100, 0] + PtNumbers(r.lba, r.parent, msb) + r.id + (if |r.id| % 2 == 1 then [0] else [])
  }

  function PtTable(rs: seq<PtRecord>, msb: bool): Str {
    if rs == [] then [] else PtTable(rs[..|rs| - 1], msb) + PtEntry(rs[|rs| - 1], msb)
  }

  /** The table padded to whole sectors, as it is written. */
  function PtImage(rs: seq<PtRecord>, msb: bool): Str {
    PtTable(rs, msb) + Zeros(RoundUp(|PtTable(rs, msb)|) - |PtTable(rs, msb)|)
  }

  /** A table is its entries one after the other, and is written padded with zeros to the next whole sector. */
  lemma PtImageMeans(rs: seq<PtRecord>, r: PtRecord, msb: bool)
    ensures PtTable([], msb) == [] && PtTable(rs + [r], msb) == PtTable(rs, msb) + PtEntry(r, msb)
    ensures var table, image := PtTable(rs, msb), PtImage(rs, msb);
            && |image| % 2048 == 0 && |table| <= |image| < |table| + 2048 && image[..|table|] == table
            && forall i | |table| <= i < |image| :: image[i] == 0
  {
    assert (rs + [r])[..|rs + [r]| - 1] == rs;
  }

  /** One entry, filled in field by field. */
  method BuildEntry(r: PtRecord, msb: bool) returns (ent: array<byte>)
    ensures fresh(ent) && ent[..] == PtEntry(r, msb)
  {
    var n := PtEntryLen(|r.id|);
    ent := new byte[n](_ => 0);
    assert ent[..] == [] + Zeros(n);
    ghost var done := PutNext(ent, [], 0, [|r.id| % 0x100, 0]);
    done := PutNext(ent, done, 2, if msb then BE32(r.lba) else LE32(r.lba));
    done := PutNext(ent, done, 6, if msb then BE16(r.parent % 0x1_0000) else LE16(r.parent % 0x1_0000));
    assert done == [|r.id| % 0x100, 0] + PtNumbers(r.lba, r.parent, msb);
    done := PutNext(ent, done, 8, r.id);
  }

  // ----- Decoding -----

  /** The record at the start of `buf`, and its length with padding. */
  function PtParse(buf: Str, msb: bool): Option<(PtRecord, nat)> {
    if |buf| < 8 || buf[0] == 0 || |buf| < PtEntryLen(buf[0]) then None
    else
      var n: int := buf[0];
      var r := if msb then PtRecord(buf[8..8 + n], Be32(buf[2..]), Be16(buf[6..]))
               else PtRecord(buf[8..8 + n], Le32(buf[2..]), Le16(buf[6..]));
      Some((r, PtEntryLen(n)))
  }

  /** The records in the first `size` bytes of a table, from `pos` on. */
  function PtDecode(table: Str, size: nat, pos: nat, msb: bool): Option<seq<PtRecord>>
    requires size <= |table|
    decreases size - pos
  {
    if pos >= size then Some([])
    else match PtParse(table[pos..size], msb)
      case None => None
      case Some(parsed) => PtPrepend(parsed.0, PtDecode(table, size, pos + parsed.1, msb))
  }

  function PtPrepend(r: PtRecord, rest: Option<seq<PtRecord>>): Option<seq<PtRecord>> {
    if rest.None? then None else Some([r] + rest.value)
  }

  lemma FieldsAt(head: Str, x: Str, y: Str, tail: Str)
    requires |head| == 2 && |x| == 4
    ensures (head + (x + y) + tail)[2..] == x + (y + tail) && (head + (x + y) + tail)[6..] == y + tail
  {
  }

  lemma PtFields(r: PtRecord, msb: bool, rest: Str)
    requires 1 <= |r.id| <= 255
    ensures var b := PtEntry(r, msb) + rest;
            && b[0] == |r.id| && b[8..8 + |r.id|] == r.id
            && (if msb then Be32(b[2..]) else Le32(b[2..])) == r.lba
            && (if msb then Be16(b[6..]) else Le16(b[6..])) == r.parent % 0x1_0000
  {
    var head, tail: Str := [|r.id| % 0x100, 0], r.id + ((if |r.id| % 2 == 1 then [0] else []) + rest);
    var x := if msb then BE32(r.lba) else LE32(r.lba);
    var y := if msb then BE16(r.parent % 0x1_0000) else LE16(r.parent % 0x1_0000);
    assert PtEntry(r, msb) + rest == head + (x + y) + tail;
    FieldsAt(head, x, y, tail);
    ByteOrders32(r.lba, y + tail);
    ByteOrders16(r.parent % 0x1_0000, tail);
    IdAfter(head + (x + y), r.id, (if |r.id| % 2 == 1 then [0] else []) + rest);
  }

  lemma IdAfter(front: Str, id: Str, rest: Str)
    requires |front| == 8
    ensures (front + (id + rest))[8..8 + |id|] == id
  {
  }

  /** Where the fields of an entry stand: sections 9.4 and 7.3 of ECMA-119. */
  lemma PtEntryMeans(r: PtRecord, msb: bool)
    requires |r.id| <= 255
    ensures var e := PtEntry(r, msb);
            && |e| == 8 + |r.id| + |r.id| % 2 && e[0] as int == |r.id| && e[1] == 0
            && e[2..6] == (if msb then BE32(r.lba) else LE32(r.lba))
            && e[6..8] == (if msb then BE16(r.parent % 0x1_0000) else LE16(r.parent % 0x1_0000))
            && e[8..8 + |r.id|] == r.id && (|r.id| % 2 == 1 ==> e[|e| - 1] == 0)
  {
    var x := if msb then BE32(r.lba) else LE32(r.lba);
    var y := if msb then BE16(r.parent % 0x1_0000) else LE16(r.parent % 0x1_0000);
    var e := [|r.id| % 0x100, 0] + (x + y) + r.id + (if |r.id| % 2 == 1 then [0] else []);
    assert e == PtEntry(r, msb);
    EntryParts([|r.id| % 0x100, 0], x, y, r.id, if |r.id| % 2 == 1 then [0] else []);
  }

  lemma EntryParts(head: Str, x: Str, y: Str, id: Str, pad: Str)
    requires |head| == 2 && |x| == 4 && |y| == 2
    ensures var e := head + (x + y) + id + pad;
            && e[..2] == head && e[2..6] == x && e[6..8] == y && e[8..8 + |id|] == id && e[8 + |id|..] == pad
  {
  }

  /** Either byte order decodes to the record that was encoded, exactly while the parent's number fits 16 bits. */
  lemma PtEntryDecodes(r: PtRecord, msb: bool, rest: Str)
    requires 1 <= |r.id| <= 255
    ensures PtParse(PtEntry(r, msb) + rest, msb) == Some((r, PtEntryLen(|r.id|))) <==> r.parent < 0x1_0000
  {
    PtFields(r, msb, rest);
  }

  predicate Encodable(rs: seq<PtRecord>) {
    forall r <- rs :: 1 <= |r.id| <= 255 && r.parent < 0x1_0000
  }

  lemma {:induction false} PtTablePrefix(rs: seq<PtRecord>, msb: bool, i: nat)
    requires i <= |rs|
    ensures PtTable(rs[..i], msb) <= PtTable(rs, msb)
    decreases |rs| - i
  {
    if i == |rs| {
      assert rs[..i] == rs;
    } else {
      PtTablePrefix(rs, msb, i + 1);
      assert rs[..i + 1][..i] == rs[..i];
    }
  }

  lemma PtTableNext(rs: seq<PtRecord>, msb: bool, i: nat)
    requires i < |rs|
    ensures PtTable(rs[..i + 1], msb) == PtTable(rs[..i], msb) + PtEntry(rs[i], msb)
  {
    assert rs[..i + 1][..i] == rs[..i];
  }

  lemma SliceAfter(a: Str, e: Str, table: Str)
    requires a + e <= table
    ensures table[|a|..|a + e|] == e
  {
    assert table[..|a + e|] == a + e;
  }

  /** Entry i stands where the first i entries end. */
  lemma PtEntryInPlace(rs: seq<PtRecord>, msb: bool, table: Str, i: nat)
    requires i < |rs| && PtTable(rs, msb) <= table
    ensures var pos, end := |PtTable(rs[..i], msb)|, |PtTable(rs[..i + 1], msb)|;
            pos + PtEntryLen(|rs[i].id|) == end <= |PtTable(rs, msb)| && table[pos..end] == PtEntry(rs[i], msb)
  {
    PtTablePrefix(rs, msb, i + 1);
    PtTableNext(rs, msb, i);
    SliceAfter(PtTable(rs[..i], msb), PtEntry(rs[i], msb), table);
  }

  lemma PtParseAt(table: Str, size: nat, pos: nat, end: nat, msb: bool, r: PtRecord)
    requires 1 <= |r.id| <= 255 && r.parent < 0x1_0000
    requires pos + PtEntryLen(|r.id|) == end <= size <= |table| && table[pos..end] == PtEntry(r, msb)
    ensures PtParse(table[pos..size], msb) == Some((r, end - pos))
  {
    var rest := table[end..size];
    assert table[pos..size] == table[pos..end] + rest;
    PtEntryDecodes(r, msb, rest);
  }

  lemma PtDecodeStep(table: Str, size: nat, pos: nat, n: nat, msb: bool, r: PtRecord, rest: seq<PtRecord>)
    requires n > 0 && pos + n <= size <= |table| && PtParse(table[pos..size], msb) == Some((r, n))
    requires PtDecode(table, size, pos + n, msb) == Some(rest)
    ensures PtDecode(table, size, pos, msb) == Some([r] + rest)
  {
    var decoded := PtDecode(table, size, pos, msb);
    assert decoded == PtPrepend(r, PtDecode(table, size, pos + n, msb));
  }

  /** Where the first i entries end, for every i. */
  function PtEnds(rs: seq<PtRecord>, msb: bool): (ends: seq<nat>)
    ensures |ends| == |rs| + 1
  {
    seq(|rs| + 1, i requires 0 <= i <= |rs| => |PtTable(rs[..i], msb)|)
  }

  /** From `ends[i]` to `ends[i + 1]` the table holds record i. */
  predicate PtParses(table: Str, size: nat, msb: bool, rs: seq<PtRecord>, ends: seq<nat>, i: nat)
    requires i < |rs| && |ends| == |rs| + 1
  {
    && ends[i] < ends[i + 1] <= size <= |table|
    && PtParse(table[ends[i]..size], msb) == Some((rs[i], ends[i + 1] - ends[i]))
  }

  /** The entry of `r` stands from `pos` to `end`. */
  predicate PtStands(table: Str, pos: nat, end: nat, r: PtRecord, msb: bool) {
    pos + PtEntryLen(|r.id|) == end <= |table| && table[pos..end] == PtEntry(r, msb)
  }

  lemma PtEntryStands(rs: seq<PtRecord>, msb: bool, table: Str, i: nat)
    requires i < |rs| && PtTable(rs, msb) <= table
    ensures var ends := PtEnds(rs, msb);
            ends[i + 1] <= |PtTable(rs, msb)| <= |table| && PtStands(table, ends[i], ends[i + 1], rs[i], msb)
  {
    PtEntryInPlace(rs, msb, table, i);
  }

  lemma PtParsesEach(rs: seq<PtRecord>, msb: bool, table: Str, size: nat, ends: seq<nat>, i: nat)
    requires i < |rs| && |ends| == |rs| + 1 && 1 <= |rs[i].id| <= 255 && rs[i].parent < 0x1_0000
    requires ends[i + 1] <= size <= |table| && PtStands(table, ends[i], ends[i + 1], rs[i], msb)
    ensures PtParses(table, size, msb, rs, ends, i)
  {
    PtParseAt(table, size, ends[i], ends[i + 1], msb, rs[i]);
  }

  /** From the end of entry i-1 the decoder yields the records from i on. */
  lemma {:induction false} PtDecodeFrom(table: Str, size: nat, msb: bool, rs: seq<PtRecord>, ends: seq<nat>, i: nat)
    requires |ends| == |rs| + 1 && ends[|rs|] == size <= |table| && i <= |rs|
    requires forall k | 0 <= k < |rs| :: PtParses(table, size, msb, rs, ends, k)
    ensures PtDecode(table, size, ends[i], msb) == Some(rs[i..])
    decreases |rs| - i
  {
    if i < |rs| {
      assert PtParses(table, size, msb, rs, ends, i);
      PtDecodeFrom(table, size, msb, rs, ends, i + 1);
      PtDecodeStep(table, size, ends[i], ends[i + 1] - ends[i], msb, rs[i], rs[i + 1..]);
      assert rs[i..] == [rs[i]] + rs[i + 1..];
    }
  }

  /** Decoding a written table, of either kind, gives back its records. */
  lemma PtRoundTrip(rs: seq<PtRecord>, msb: bool)
    requires Encodable(rs)
    ensures PtDecode(PtImage(rs, msb), |PtTable(rs, msb)|, 0, msb) == Some(rs)
  {
    var table, size, ends := PtImage(rs, msb), |PtTable(rs, msb)|, PtEnds(rs, msb);
    forall k | 0 <= k < |rs| ensures PtParses(table, size, msb, rs, ends, k) {
      assert rs[k] in rs;
      PtEntryStands(rs, msb, table, k);
      PtParsesEach(rs, msb, table, size, ends, k);
    }
    assert rs[..0] == [] && rs[..|rs|] == rs && rs[0..] == rs;
    PtDecodeFrom(table, size, msb, rs, ends, 0);
  }

  /** What 16 bits hold of a record. */
  function Shown(r: PtRecord): PtRecord { r.(parent := r.parent % 0x1_0000) }

  function ShownAll(rs: seq<PtRecord>): (out: seq<PtRecord>)
    ensures |out| == |rs| && forall i | 0 <= i < |rs| :: out[i] == Shown(rs[i])
  {
    seq(|rs|, i requires 0 <= i < |rs| => Shown(rs[i]))
  }

  lemma ShownEntry(r: PtRecord, msb: bool)
    ensures PtEntry(Shown(r), msb) == PtEntry(r, msb)
  {
    assert Shown(r).parent % 0x1_0000 == r.parent % 0x1_0000;
  }

  lemma ShownNext(rs: seq<PtRecord>)
    requires rs != []
    ensures ShownAll(rs)[..|rs| - 1] == ShownAll(rs[..|rs| - 1]) && ShownAll(rs)[|rs| - 1] == Shown(rs[|rs| - 1])
  {
  }

  lemma {:induction false} ShownTable(rs: seq<PtRecord>, msb: bool)
    ensures PtTable(ShownAll(rs), msb) == PtTable(rs, msb)
  {
    if rs != [] {
      ShownTable(rs[..|rs| - 1], msb);
      ShownNext(rs);
      ShownEntry(rs[|rs| - 1], msb);
    }
  }

  predicate IdsFit(rs: seq<PtRecord>) { forall r <- rs :: 1 <= |r.id| <= 255 }

  lemma ShownEncodable(rs: seq<PtRecord>)
    requires IdsFit(rs)
    ensures Encodable(ShownAll(rs))
  {
    forall r | r in ShownAll(rs) ensures 1 <= |r.id| <= 255 && r.parent < 0x1_0000 {
      var i :| 0 <= i < |rs| && ShownAll(rs)[i] == r;
      assert rs[i] in rs;
    }
  }

  lemma ShownExact(rs: seq<PtRecord>)
    ensures ShownAll(rs) == rs <==> forall r <- rs :: r.parent < 0x1_0000
  {
    if forall r <- rs :: r.parent < 0x1_0000 {
      forall i | 0 <= i < |rs| ensures ShownAll(rs)[i] == rs[i] { assert rs[i] in rs; }
    } else {
      var i :| 0 <= i < |rs| && rs[i].parent >= 0x1_0000;
      assert ShownAll(rs)[i] != rs[i];
    }
  }

  /** Decoding a written table always gives its records as far as 16 bits hold them, so it gives back the records
      exactly if no parent's number exceeds 65535. */
  lemma PtTableDecodes(rs: seq<PtRecord>, msb: bool)
    requires IdsFit(rs)
    ensures var got := PtDecode(PtImage(rs, msb), |PtTable(rs, msb)|, 0, msb);
            got == Some(ShownAll(rs)) && (got == Some(rs) <==> forall r <- rs :: r.parent < 0x1_0000)
  {
    ShownTable(rs, msb);
    ShownEncodable(rs);
    PtRoundTrip(ShownAll(rs), msb);
    ShownExact(rs);
  }

  // ----- The tables of a plan -----

  /** Everything the table says about directory i. */
  ghost function PtRecordAt(t: Tree, pl: Plan, i: nat): PtRecord
    requires Plots(t, pl) && i < |pl.dirs|
  {
    assert pl.dirs[i] in pl.dirs;
    PtRecord(PtIdent(t, pl.dirs[i]), pl.lba[pl.dirs[i]], pl.up[i] + 1)
  }

  ghost function PtRecords(t: Tree, pl: Plan): (rs: seq<PtRecord>)
    requires Plots(t, pl)
    ensures |rs| == |pl.dirs|
  {
    seq(|pl.dirs|, i requires 0 <= i < |pl.dirs| => PtRecordAt(t, pl, i))
  }

  /** The root comes first, under the identifier of one zero byte, as its own parent; every other directory under its
      identifier, with the number of its parent, counting from one; each with the place of its extent. */
  lemma PtRecordsMean(t: Tree, pl: Plan, i: nat)
    requires Plots(t, pl) && i < |pl.dirs|
    ensures var d := pl.dirs[i];
            && d in t && (i == 0 <==> d == Root)
            && (i == 0 ==> PtRecords(t, pl)[i] == PtRecord([0], pl.lba[Root], 1))
            && (i > 0 ==> pl.up[i] < i && pl.dirs[pl.up[i]] == d.parent
                          && PtRecords(t, pl)[i] == PtRecord(Id(t, d), pl.lba[d], pl.up[i] + 1))
  {
    assert pl.dirs[i] in pl.dirs && PtRecords(t, pl)[i] == PtRecordAt(t, pl, i);
    if i > 0 { assert HungAt(pl.dirs, pl.up, i); }
  }

  /** The node's fields say what the plan says. */
  lemma EntryOfDir(b: Builder, t: Tree, pl: Plan, dirs: seq<Node>, i: nat)
    requires LaidOut(b, t, pl, dirs) && i < |dirs|
    ensures var d := dirs[i];
            && PathTableIdent(d) == PtRecordAt(t, pl, i).id && d.extentLBA == PtRecordAt(t, pl, i).lba
            && (if d.parent == null then d.dirIndex else d.parent.dirIndex) == PtRecordAt(t, pl, i).parent
  {
    var p := pl.dirs[i];
    assert p in pl.dirs && Sited(b, pl.s.len, pl.lba, p);
    IdentIs(b, t, dirs[i]);
    if i > 0 {
      assert HungAt(pl.dirs, pl.up, i);
      BelowRoot(p);
      assert Named(b, AllIds(t), p);
    }
  }

  /** The entry of one directory, from its node and its parent's. */
  method EntryFor(b: Builder, ghost t: Tree, ghost pl: Plan, dirs: seq<Node>, i: nat, msb: bool) returns (bytes: Str)
    requires LaidOut(b, t, pl, dirs) && i < |dirs|
    ensures bytes == PtEntry(PtRecords(t, pl)[i], msb)
  {
    var d := dirs[i];
    var parentIndex := d.dirIndex;
    if d.parent != null { parentIndex := d.parent.dirIndex; }
    EntryOfDir(b, t, pl, dirs, i);
    assert PtRecords(t, pl)[i] == PtRecordAt(t, pl, i);
    var ent := BuildEntry(PtRecord(PathTableIdent(d), d.extentLBA, parentIndex), msb);
    bytes := ent[..];
  }

  method PathTable(b: Builder, ghost t: Tree, ghost pl: Plan, dirs: seq<Node>, msb: bool) returns (out: Str)
    requires LaidOut(b, t, pl, dirs)
    ensures out == PtImage(PtRecords(t, pl), msb)
  {
    ghost var rs := PtRecords(t, pl);
    out := [];
    for i := 0 to |dirs|
      invariant out == PtTable(rs[..i], msb)
    {
      var ent := EntryFor(b, t, pl, dirs, i, msb);
      PtTableNext(rs, msb, i);
      out := out + ent;
    }
    assert rs[..|dirs|] == rs;
    out := PadToSector(out);
  }

  method PadToSector(s: Str) returns (r: Str)
    ensures r == s + Zeros(RoundUp(|s|) - |s|)
  {
    r := s;
    if |s| % 2048 != 0 { r := s + Zeros(2048 - |s| % 2048); }
  }

  // ----- What the tables mean -----

  /** A directory's path as identifiers on disk. */
  ghost function IdPath(t: Tree, q: Path): seq<Str>
    requires WellFormed(t) && q in t
  {
    if q.Root? then []
    else
      assert Hangs(t, q);
      IdPath(t, q.parent) + [Id(t, q)]
  }

  /** Following parent numbers up from record i, collecting identifiers. */
  function FollowParents(rs: seq<PtRecord>, i: nat): seq<Str> {
    if i >= |rs| || !(1 <= rs[i].parent <= i) then [] else FollowParents(rs, rs[i].parent - 1) + [rs[i].id]
  }

  /** Different entries have different identifier paths. */
  lemma {:induction false} IdPathInjective(t: Tree, p: Path, q: Path)
    requires WellFormed(t) && p in t && q in t && IdPath(t, p) == IdPath(t, q)
    ensures p == q
  {
    if p.Child? && q.Child? {
      assert Hangs(t, p) && Hangs(t, q);
      assert IdPath(t, p)[..|IdPath(t, p)| - 1] == IdPath(t, p.parent);
      assert IdPath(t, q)[..|IdPath(t, q)| - 1] == IdPath(t, q.parent);
      IdPathInjective(t, p.parent, q.parent);
      assert IdPath(t, p)[|IdPath(t, p)| - 1] == Id(t, p) && IdPath(t, q)[|IdPath(t, q)| - 1] == Id(t, q);
      assert p == Child(p.parent, p.name) && q == Child(p.parent, q.name);
      SiblingIds(t, p.parent, p.name, q.name);
    }
  }

  /** One step up the table. */
  lemma FollowStep(rs: seq<PtRecord>, i: nat, up: nat, above: seq<Str>)
    requires up < i < |rs| && rs[i].parent == up + 1 && FollowParents(rs, up) == above
    ensures FollowParents(rs, i) == above + [rs[i].id]
  {
  }

  lemma {:induction false} ParentsLead(t: Tree, pl: Plan, i: nat)
    requires Plots(t, pl) && i < |pl.dirs|
    ensures pl.dirs[i] in t && FollowParents(PtRecords(t, pl), i) == IdPath(t, pl.dirs[i])
  {
    PtRecordsMean(t, pl, i);
    if i > 0 {
      ParentsLead(t, pl, pl.up[i]);
      FollowStep(PtRecords(t, pl), i, pl.up[i], IdPath(t, pl.dirs[pl.up[i]]));
    }
  }

  lemma {:induction false} TableSize(rs: seq<PtRecord>, ps: seq<Path>, w: Weights, msb: bool)
    requires |rs| == |ps| && forall i | 0 <= i < |ps| :: ps[i] in w && w[ps[i]] == PtEntryLen(|rs[i].id|)
    ensures |PtTable(rs, msb)| == SumSeq(w, ps)
  {
    if rs != [] { TableSize(rs[..|rs| - 1], ps[..|ps| - 1], w, msb); }
  }

  lemma PtTableSize(t: Tree, pl: Plan, msb: bool)
    requires Plots(t, pl)
    ensures |PtTable(PtRecords(t, pl), msb)| == pl.ptBytes
  {
    var w, rs := PtWeights(t), PtRecords(t, pl);
    forall i | 0 <= i < |pl.dirs| ensures pl.dirs[i] in w && w[pl.dirs[i]] == PtEntryLen(|rs[i].id|) {
      assert pl.dirs[i] in pl.dirs && rs[i] == PtRecordAt(t, pl, i);
    }
    TableSize(rs, pl.dirs, w, msb);
  }

  lemma PlanIdsFit(t: Tree, pl: Plan)
    requires Plots(t, pl)
    ensures IdsFit(PtRecords(t, pl))
  {
    var rs := PtRecords(t, pl);
    forall i | 0 <= i < |rs| ensures 1 <= |rs[i].id| <= 255 {
      assert rs[i] == PtRecordAt(t, pl, i);
      if i > 0 {
        var q := pl.dirs[i];
        assert HungAt(pl.dirs, pl.up, i) && q in pl.dirs;
        assert Hangs(t, q) && SurveyedAt(t, pl.s, q.parent);
        SiblingIds(t, q.parent, q.name, q.name);
        IdsShort(t, q.parent, q.name);
      }
    }
  }

  /** Decoding either written table gives one record for each directory, exactly if every directory with subdirectories
      is among the first 65535; up to 65535 directories that is so. */
  lemma PathTablesDecode(t: Tree, pl: Plan, msb: bool)
    requires Plots(t, pl)
    ensures PtDecode(PtImage(PtRecords(t, pl), msb), |PtTable(PtRecords(t, pl), msb)|, 0, msb) == Some(PtRecords(t, pl))
       <==> forall i | 0 <= i < |pl.dirs| :: pl.up[i] < 0xFFFF
    ensures |pl.dirs| <= 0xFFFF ==> forall i | 0 <= i < |pl.dirs| :: pl.up[i] < 0xFFFF
  {
    var rs := PtRecords(t, pl);
    PlanIdsFit(t, pl);
    PtTableDecodes(rs, msb);
    forall i | 0 <= i < |rs| ensures rs[i].parent == pl.up[i] + 1 && pl.up[i] < |pl.dirs| {
      assert rs[i] == PtRecordAt(t, pl, i);
      assert i > 0 ==> HungAt(pl.dirs, pl.up, i);
    }
    assert (forall r <- rs :: r.parent < 0x1_0000) <==> forall i | 0 <= i < |rs| :: rs[i].parent < 0x1_0000;
  }

  /** The records, followed along their parent numbers, give every directory's full path, no two of them the same. */
  lemma PathTablesNameDirs(t: Tree, pl: Plan, i: nat, j: nat)
    requires Plots(t, pl) && i < |pl.dirs| && j < |pl.dirs|
    ensures pl.dirs[i] in t && FollowParents(PtRecords(t, pl), i) == IdPath(t, pl.dirs[i])
    ensures PtRecords(t, pl)[i].lba == pl.lba[pl.dirs[i]]
    ensures i != j ==> FollowParents(PtRecords(t, pl), i) != FollowParents(PtRecords(t, pl), j)
  {
    ParentsLead(t, pl, i);
    ParentsLead(t, pl, j);
    assert PtRecords(t, pl)[i] == PtRecordAt(t, pl, i);
    if IdPath(t, pl.dirs[i]) == IdPath(t, pl.dirs[j]) {
      IdPathInjective(t, pl.dirs[i], pl.dirs[j]);
      DistinctAt(pl.dirs, i, j);
    }
  }
}
