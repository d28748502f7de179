/** Serialising directories: `directoryExtent` (create.go). */
module DirWriters {
  import opened Bytes
  import opened DirRecords
  import opened DirExtents
  import opened Trees
  import opened Plans
  import opened Builders
  import opened Siblings
  import opened Naming
  import opened Numbering
  import opened Placing
  import opened Layouts

  /** The record for the entry at `q` under the identifier `id`. */
  ghost function SlotAt(t: Tree, pl: Plan, q: Path, id: Str): Slot
    requires Plots(t, pl) && q in t
  {
    Slot(id, pl.lba[q], pl.s.len[q], IsDirAt(t, q))
  }

  function ParentOf(p: Path): Path { if p.Root? then p else p.parent }

  /** The records of the directory at `p`: ".", "..", then each child in identifier order. */
  ghost function DirSlots(t: Tree, pl: Plan, p: Path): (slots: seq<Slot>)
    requires Plots(t, pl) && IsDirAt(t, p)
  {
    assert p.Child? ==> Hangs(t, p);
    [SlotAt(t, pl, p, [0]), SlotAt(t, pl, ParentOf(p), [1])] + KidSlots(t, pl, p)
  }

  ghost function KidSlots(t: Tree, pl: Plan, p: Path): (slots: seq<Slot>)
    requires Plots(t, pl) && IsDirAt(t, p)
    ensures |slots| == |pl.s.kids[p]|
  {
    KidsInTree(t, pl, p);
    seq(|pl.s.kids[p]|, i requires 0 <= i < |pl.s.kids[p]| =>
      SlotAt(t, pl, Child(p, pl.s.kids[p][i]), Id(t, Child(p, pl.s.kids[p][i]))))
  }

  lemma KidsInTree(t: Tree, pl: Plan, p: Path)
    requires Plots(t, pl) && p in t
    ensures pl.s.kids[p] == ById(t, p) && forall i | 0 <= i < |pl.s.kids[p]| :: Child(p, pl.s.kids[p][i]) in t
  {
    assert SurveyedAt(t, pl.s, p);
    ByIdDistinct(t, p);
    assert forall i | 0 <= i < |ById(t, p)| :: ById(t, p)[i] in ById(t, p);
  }

  ghost function DirBytes(t: Tree, pl: Plan, p: Path, stamp: Stamp): Str
    requires Plots(t, pl) && IsDirAt(t, p)
  {
    ExtentBytes(EncodeAll(DirSlots(t, pl, p), stamp))
  }

  /** The size computed beforehand is the size written. */
  lemma DirBytesLength(t: Tree, pl: Plan, p: Path, stamp: Stamp)
    requires Plots(t, pl) && IsDirAt(t, p)
    ensures |DirBytes(t, pl, p, stamp)| == pl.s.len[p] == DirLen(t, p)
  {
    DirSurvey(t, pl.s, p);
    SlotLens(t, pl, p, RecordIdLens(t, p));
    PackedSlots(DirSlots(t, pl, p), RecordIdLens(t, p), stamp);
  }

  lemma DirSurvey(t: Tree, s: Survey, p: Path)
    requires Surveyed(t, s) && IsDirAt(t, p)
    ensures WellFormed(t) && s.len[p] == DirLen(t, p) == ExtentSize(RecordIdLens(t, p))
  {
    assert SurveyedAt(t, s, p);
  }

  lemma SlotLens(t: Tree, pl: Plan, p: Path, lens: seq<nat>)
    requires Plots(t, pl) && IsDirAt(t, p) && lens == RecordIdLens(t, p)
    ensures var slots := DirSlots(t, pl, p);
              |lens| == |slots| && forall i | 0 <= i < |slots| :: lens[i] == |slots[i].id|
  {
    KidLens(t, pl, p, lens);
    assert p.Child? ==> Hangs(t, p);
    Joined(SlotAt(t, pl, p, [0]), SlotAt(t, pl, ParentOf(p), [1]), KidSlots(t, pl, p), lens);
  }

  lemma Joined(a: Slot, b: Slot, kids: seq<Slot>, lens: seq<nat>)
    requires |lens| == |kids| + 2 && lens[0] == |a.id| && lens[1] == |b.id|
             && forall i | 0 <= i < |kids| :: lens[i + 2] == |kids[i].id|
    ensures forall i | 0 <= i < |[a, b] + kids| :: lens[i] == |([a, b] + kids)[i].id|
  {
    forall i | 2 <= i < |[a, b] + kids| ensures lens[i] == |([a, b] + kids)[i].id| {
      assert lens[i - 2 + 2] == |kids[i - 2].id|;
    }
  }

  lemma KidLens(t: Tree, pl: Plan, p: Path, lens: seq<nat>)
    requires Plots(t, pl) && IsDirAt(t, p) && lens == RecordIdLens(t, p)
    ensures var kids := KidSlots(t, pl, p);
            |lens| == |kids| + 2 && lens[0] == lens[1] == 1 && forall i | 0 <= i < |kids| :: lens[i + 2] == |kids[i].id|
  {
    KidsInTree(t, pl, p);
    var kids := KidSlots(t, pl, p);
    forall i | 0 <= i < |kids| ensures |lens| == |kids| + 2 && lens[i + 2] == |kids[i].id| { IdLenAt(t, p, i); }
  }

  lemma PackedSlots(slots: seq<Slot>, lens: seq<nat>, stamp: Stamp)
    requires |lens| == |slots| && forall i | 0 <= i < |slots| :: lens[i] == |slots[i].id|
    ensures |ExtentBytes(EncodeAll(slots, stamp))| == ExtentSize(lens)
  {
    PackLength(EncodeAll(slots, stamp), lens);
  }

  lemma PackNext(recs: seq<Str>, i: nat)
    requires NonEmpty(recs) && i < |recs|
    ensures NonEmpty(recs[..i]) && NonEmpty(recs[..i + 1]) && recs[i] != []
    ensures Pack(recs[..i + 1]) == PackOne(Pack(recs[..i]), recs[i]) && |Pack(recs[..i + 1])| <= |Pack(recs)|
  {
    PackPrefix(recs, i + 1);
    PackLast(recs[..i + 1], recs[..i], recs[i]);
  }

  lemma PackLast(recs: seq<Str>, front: seq<Str>, last: Str)
    requires NonEmpty(recs) && recs == front + [last] && last != []
    ensures NonEmpty(front) && Pack(recs) == PackOne(Pack(front), last)
  {
    assert recs[..|recs| - 1] == front;
  }

  /** The first i records stand in `buf`, up to `pos`. */
  ghost predicate EmittedUpTo(bytes: Str, recs: seq<Str>, i: nat, pos: nat)
    requires NonEmpty(recs) && i <= |recs|
  {
    |Pack(recs)| <= |bytes| && pos == |Pack(recs[..i])| <= |bytes| && bytes == Pack(recs[..i]) + Zeros(|bytes| - pos)
  }

  /** One record put where `emit` puts it. */
  method Emit(buf: array<byte>, pos: nat, rec: Str, ghost recs: seq<Str>, ghost i: nat) returns (pos': nat)
    requires NonEmpty(recs) && i < |recs| && rec == recs[i] && EmittedUpTo(buf[..], recs, i, pos)
    modifies buf
    ensures EmittedUpTo(buf[..], recs, i + 1, pos')
  {
    PackNext(recs, i);
    var at := pos;
    if pos / 2048 != (pos + |rec| - 1) / 2048 { at := (pos / 2048 + 1) * 2048; }
    ghost var done := PutNext(buf, Pack(recs[..i]), at, rec);
    pos' := at + |rec|;
  }

  /** The record for a node, as its fields stand. */
  function NodeSlot(c: Node): Slot
    reads c
  {
    Slot(c.id, c.extentLBA, c.extentLen, c.isDir)
  }

  /** A child's node says what its record is to say. */
  lemma KidSlot(b: Builder, t: Tree, pl: Plan, dirs: seq<Node>, p: Path, cs: seq<Node>, i: nat)
    requires LaidOut(b, t, pl, dirs) && IsDirAt(t, p) && KidsOf(b, p, cs) && NamesOf(cs) == pl.s.kids[p] && i < |cs|
    ensures NodeSlot(cs[i]) == KidSlots(t, pl, p)[i]
  {
    KidTitled(b, t, p, cs, i);
    assert Sited(b, pl.s.len, pl.lba, cs[i].path);
    assert cs[i] in cs;
  }

  lemma OwnSlots(b: Builder, t: Tree, pl: Plan, dirs: seq<Node>, d: Node)
    requires LaidOut(b, t, pl, dirs) && Ready(b, t, d) && IsDirAt(t, d.path)
    ensures var q := if d.parent == null then d else d.parent;
            && Slot([0], d.extentLBA, d.extentLen, true) == SlotAt(t, pl, d.path, [0])
            && ParentOf(d.path) in t
               && Slot([1], q.extentLBA, q.extentLen, true) == SlotAt(t, pl, ParentOf(d.path), [1])
    ensures d.extentLen == pl.s.len[d.path]
  {
    assert Sited(b, pl.s.len, pl.lba, d.path);
    if d.path.Child? {
      BelowRoot(d.path);
      assert Hangs(t, d.path) && Named(b, AllIds(t), d.path);
      assert Sited(b, pl.s.len, pl.lba, d.path.parent);
    }
  }

  method DirectoryExtent(b: Builder, ghost t: Tree, ghost pl: Plan, ghost dirs: seq<Node>, d: Node) returns (out: Str)
    requires LaidOut(b, t, pl, dirs) && Ready(b, t, d) && IsDirAt(t, d.path)
    ensures out == DirBytes(t, pl, d.path, b.stamp)
  {
    ghost var kids := KidSlots(t, pl, d.path);
    var cs := IdKidsInOrder(b, t, d, pl.s);
    OwnSlots(b, t, pl, dirs, d);
    DirBytesLength(t, pl, d.path, b.stamp);
    forall i | 0 <= i < |cs| ensures NodeSlot(cs[i]) == kids[i] {
      KidSlot(b, t, pl, dirs, d.path, cs, i);
    }
    var q := if d.parent == null then d else d.parent;
    out := FillExtent(d.extentLen, Slot([0], d.extentLBA, d.extentLen, true),
                      Slot([1], q.extentLBA, q.extentLen, true), cs, b.stamp, kids);
  }

  /** Emits the two special records and then one for each child. */
  method FillExtent(len: u32, self: Slot, up: Slot, cs: seq<Node>, stamp: Stamp, ghost kids: seq<Slot>)
    returns (out: Str)
    requires |kids| == |cs| && forall i | 0 <= i < |cs| :: NodeSlot(cs[i]) == kids[i]
    requires len == |ExtentBytes(EncodeAll([self, up] + kids, stamp))|
    ensures out == ExtentBytes(EncodeAll([self, up] + kids, stamp))
  {
    ghost var recs := EncodeAll([self, up] + kids, stamp);
    EncodedInOrder(self, up, kids, stamp);
    var buf := new byte[len](_ => 0);
    NothingEmitted(buf[..], recs);
    var pos := EmitSlot(buf, 0, self, stamp, recs, 0);
    pos := EmitSlot(buf, pos, up, stamp, recs, 1);
    for i := 0 to |cs|
      invariant EmittedUpTo(buf[..], recs, i + 2, pos)
    {
      pos := EmitSlot(buf, pos, NodeSlot(cs[i]), stamp, recs, i + 2);
    }
    AllEmitted(buf[..], recs, pos);
    out := buf[..];
  }

  lemma NothingEmitted(bytes: Str, recs: seq<Str>)
    requires NonEmpty(recs) && |bytes| == |ExtentBytes(recs)| && forall i | 0 <= i < |bytes| :: bytes[i] == 0
    ensures EmittedUpTo(bytes, recs, 0, 0)
  {
    assert recs[..0] == [] && bytes == [] + Zeros(|bytes|);
  }

  lemma AllEmitted(bytes: Str, recs: seq<Str>, pos: nat)
    requires NonEmpty(recs) && |bytes| == |ExtentBytes(recs)| && EmittedUpTo(bytes, recs, |recs|, pos)
    ensures bytes == ExtentBytes(recs)
  {
    assert recs[..|recs|] == recs;
  }

  lemma EncodedInOrder(self: Slot, up: Slot, kids: seq<Slot>, stamp: Stamp)
    ensures var recs := EncodeAll([self, up] + kids, stamp);
            && |recs| == |kids| + 2 && recs[0] == self.Encoded(stamp) && recs[1] == up.Encoded(stamp)
            && forall i | 0 <= i < |kids| :: recs[i + 2] == kids[i].Encoded(stamp)
  {
    var slots := [self, up] + kids;
    assert forall i | 0 <= i < |kids| :: slots[i + 2] == kids[i];
  }

  method EmitSlot(buf: array<byte>, pos: nat, slot: Slot, stamp: Stamp, ghost recs: seq<Str>, ghost i: nat)
    returns (pos': nat)
    requires NonEmpty(recs) && i < |recs| && slot.Encoded(stamp) == recs[i] && EmittedUpTo(buf[..], recs, i, pos)
    modifies buf
    ensures EmittedUpTo(buf[..], recs, i + 1, pos')
  {
    var rec := BuildRecord(slot.id, slot.lba, slot.size, slot.isDir, stamp);
    pos' := Emit(buf, pos, rec[..], recs, i);
  }
}
