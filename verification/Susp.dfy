/** System Use Areas as sequences of entries (rockridge.go; SUSP section 5). */
module Susp {
  import opened Bytes

  // ----- Entries -----

  /** A SUSP entry: signature, version, and the payload its length byte covers. */
  datatype SuspEntry = SuspEntry(sig0: byte, sig1: byte, version: byte, data: Str)
  {
    predicate Is(a: byte, b: byte, n: nat) { sig0 == a && sig1 == b && |data| >= n }
    predicate IsNM() { Is(0x4E, 0x4D, 1) }
    predicate IsPX() { Is(0x50, 0x58, 4) }
    predicate IsSL() { Is(0x53, 0x4C, 1) }
    predicate IsCE() { Is(0x43, 0x45, 24) }
    predicate IsSP() { Is(0x53, 0x50, 3) && data[0] == 0xBE && data[1] == 0xEF }
  }

  /** A whole entry starts at `o`. */
  predicate HasEntry(s: Str, o: nat) {
    o + 4 <= |s| && s[o + 2] >= 4 && o + s[o + 2] <= |s|
  }

  function EntryAt(s: Str, o: nat): SuspEntry
    requires HasEntry(s, o)
  {
    SuspEntry(s[o], s[o + 1], s[o + 3], s[o + 4..o + s[o + 2]])
  }

  /** Every scan of a System Use Area meets these entries, and then stops. */
  function Entries(s: Str, o: nat): seq<SuspEntry>
    decreases |s| - o
  {
    if HasEntry(s, o) then [EntryAt(s, o)] + Entries(s, o + s[o + 2]) else []
  }

  /** Where the scan stops. */
  function StopAt(s: Str, o: nat): (end: nat)
    requires o <= |s|
    ensures o <= end <= |s| && !HasEntry(s, end)
    decreases |s| - o
  {
    if HasEntry(s, o) then StopAt(s, o + s[o + 2]) else o
  }

  /** The area is a sequence of entries and nothing else. */
  predicate Tiled(s: Str) { StopAt(s, 0) == |s| }

  function EncodeEntry(e: SuspEntry): Str
    requires |e.data| <= 251
  {
    [e.sig0, e.sig1, |e.data| + 4, e.version] + e.data
  }

  function EncodeEntries(es: seq<SuspEntry>): Str
    requires forall e <- es :: |e.data| <= 251
  {
    if es == [] then [] else EncodeEntry(es[0]) + EncodeEntries(es[1..])
  }

  lemma EntryInFront(e: SuspEntry, rest: Str)
    requires |e.data| <= 251
    ensures var s := EncodeEntry(e) + rest; HasEntry(s, 0) && EntryAt(s, 0) == e && s[2] == |EncodeEntry(e)|
  {
  }

  /** Scanning depends only on what lies ahead. */
  lemma {:induction false} EntriesShift(a: Str, s: Str, o: nat)
    requires o <= |s|
    ensures Entries(a + s, |a| + o) == Entries(s, o) && StopAt(a + s, |a| + o) == |a| + StopAt(s, o)
    decreases |s| - o
  {
    SameEntry(a, s, o);
    if HasEntry(s, o) {
      var next := o + s[o + 2];
      EntriesStep(s, o, next);
      EntriesStep(a + s, |a| + o, |a| + next);
      EntriesShift(a, s, next);
    }
  }

  lemma EntriesStep(s: Str, o: nat, next: nat)
    requires HasEntry(s, o) && next == o + s[o + 2]
    ensures Entries(s, o) == [EntryAt(s, o)] + Entries(s, next) && StopAt(s, o) == StopAt(s, next)
  {
  }

  lemma SameEntry(a: Str, s: Str, o: nat)
    requires o <= |s|
    ensures HasEntry(a + s, |a| + o) == HasEntry(s, o)
    ensures HasEntry(s, o) ==> EntryAt(a + s, |a| + o) == EntryAt(s, o) && (a + s)[|a| + o + 2] == s[o + 2]
  {
    if HasEntry(s, o) {
      var n: int := s[o + 2];
      assert (a + s)[|a| + o + 4..|a| + o + n] == s[o + 4..o + n];
    }
  }

  /** Scanning recovers exactly the entries written, and they tile the area. */
  lemma {:induction false} EntriesOfEncoded(es: seq<SuspEntry>)
    requires forall e <- es :: |e.data| <= 251
    ensures Entries(EncodeEntries(es), 0) == es && Tiled(EncodeEntries(es))
  {
    if es != [] {
      var front, rest := EncodeEntry(es[0]), EncodeEntries(es[1..]);
      EntryInFront(es[0], rest);
      EntriesOfEncoded(es[1..]);
      EntriesShift(front, rest, 0);
      assert es == [es[0]] + es[1..];
    }
  }

  lemma EntryBefore(s: Str, more: Str, o: nat)
    requires HasEntry(s, o)
    ensures HasEntry(s + more, o) && EntryAt(s + more, o) == EntryAt(s, o) && (s + more)[o + 2] == s[o + 2]
  {
    var n: int := s[o + 2];
    assert (s + more)[o + 4..o + n] == s[o + 4..o + n];
  }

  /** Up to where the scan of `s` alone stops, what follows makes no difference. */
  lemma {:induction false} EntriesBefore(s: Str, more: Str, o: nat)
    requires o <= |s|
    ensures Entries(s + more, o) == Entries(s, o) + Entries(s + more, StopAt(s, o))
    decreases |s| - o
  {
    if HasEntry(s, o) {
      var next := o + s[o + 2];
      EntryBefore(s, more, o);
      EntriesStep(s, o, next);
      EntriesStep(s + more, o, next);
      EntriesBefore(s, more, next);
      Assoc([EntryAt(s, o)], Entries(s, next), Entries(s + more, StopAt(s, o)));
    } else {
      assert [] + Entries(s + more, o) == Entries(s + more, o);
    }
  }

  /** An exactly tiled area followed by anything scans as the one and then the other. */
  lemma TiledThen(s: Str, more: Str)
    requires Tiled(s)
    ensures Entries(s + more, 0) == Entries(s, 0) + Entries(more, 0)
  {
    EntriesBefore(s, more, 0);
    EntriesShift(s, more, 0);
  }

  const PROBE: SuspEntry := SuspEntry(0, 0, 1, [])

  /** An area that is not exactly tiled swallows the start of what follows: a further entry is not met as itself. */
  lemma LooseSwallows(s: Str)
    requires !Tiled(s)
    ensures Entries(s + EncodeEntry(PROBE), 0) != Entries(s, 0) + Entries(EncodeEntry(PROBE), 0)
  {
    var more, end := EncodeEntry(PROBE), StopAt(s, 0);
    var all := s + more;
    EntriesBefore(s, more, 0);
    EntryInFront(PROBE, []);
    assert more + [] == more;
    assert Entries(more, 0) == [PROBE] by { assert !HasEntry(more, 4); }
    assert more == [0, 0, 4, 1];
    if HasEntry(all, end) {
      LooseEntry(s, more, end);
      assert Entries(all, end)[0] != [PROBE][0];
    }
    SameTail(Entries(s, 0), Entries(all, end), [PROBE]);
  }

  lemma SameTail(a: seq<SuspEntry>, x: seq<SuspEntry>, y: seq<SuspEntry>)
    ensures a + x == a + y ==> x == y
  {
    assert (a + x)[|a|..] == x && (a + y)[|a|..] == y;
  }

  lemma LooseEntry(s: Str, more: Str, end: nat)
    requires more == [0, 0, 4, 1] && end < |s| && !HasEntry(s, end) && HasEntry(s + more, end)
    ensures EntryAt(s + more, end) != PROBE
  {
    var all, k := s + more, |s| - end;
    assert forall i | 0 <= i < |s| :: all[i] == s[i];
    assert forall i | |s| <= i < |all| :: all[i] == more[i - |s|];
    assert k <= 3 ==> all[end + 3] == more[3 - k];
  }

  /** Areas can be scanned one after the other exactly when the first is tiled by entries. */
  lemma TilingIsExact(s: Str)
    ensures Tiled(s) <==> forall more: Str :: Entries(s + more, 0) == Entries(s, 0) + Entries(more, 0)
  {
    if Tiled(s) {
      forall more: Str ensures Entries(s + more, 0) == Entries(s, 0) + Entries(more, 0) { TiledThen(s, more); }
    } else {
      LooseSwallows(s);
    }
  }

  // ----- Looking for one entry -----

  /** A continuation: the block, the offset in it, and the length of a further area. */
  datatype Continuation = Continuation(block: u32, offset: u32, length: u32)

  function FirstCE(es: seq<SuspEntry>): Option<Continuation> {
    if es == [] then None
    else if es[0].IsCE() then Some(Continuation(Le32(es[0].data), Le32(es[0].data[8..]), Le32(es[0].data[16..])))
    else FirstCE(es[1..])
  }

  function FirstSP(es: seq<SuspEntry>): Option<byte> {
    if es == [] then None else if es[0].IsSP() then Some(es[0].data[2]) else FirstSP(es[1..])
  }

  lemma EntriesTail(s: Str, o: nat, next: nat)
    requires HasEntry(s, o) && next == o + s[o + 2]
    ensures Entries(s, o) != [] && Entries(s, o)[0] == EntryAt(s, o) && Entries(s, o)[1..] == Entries(s, next)
  {
  }

  /** `ceEntry`. */
  method CeEntry(sua: Str) returns (r: Option<Continuation>)
    ensures r == FirstCE(Entries(sua, 0))
  {
    var o := 0;
    while o + 4 <= |sua|
      invariant FirstCE(Entries(sua, o)) == FirstCE(Entries(sua, 0))
      decreases |sua| - o
    {
      var len: int := sua[o + 2];
      if len < 4 || o + len > |sua| { break; }
      EntriesTail(sua, o, o + len);
      var e := EntryAt(sua, o);
      if e.IsCE() {
        return Some(Continuation(Le32(e.data), Le32(e.data[8..]), Le32(e.data[16..])));
      }
      o := o + len;
    }
    return None;
  }

  /** `detectSUSPSkip`. */
  method DetectSuspSkip(sua: Str) returns (r: Option<byte>)
    ensures r == FirstSP(Entries(sua, 0))
  {
    var o := 0;
    while o + 4 <= |sua|
      invariant FirstSP(Entries(sua, o)) == FirstSP(Entries(sua, 0))
      decreases |sua| - o
    {
      var len: int := sua[o + 2];
      if len < 4 || o + len > |sua| { break; }
      EntriesTail(sua, o, o + len);
      var e := EntryAt(sua, o);
      if e.IsSP() { return Some(e.data[2]); }
      o := o + len;
    }
    return None;
  }

  // ----- What the scans give, byte by byte -----

  /** An entry is two bytes of signature, its whole length, its version and its payload; then the next one starts. Where
      no whole entry of at least four bytes starts, the scan ends. */
  lemma EntriesMean(a: byte, b: byte, version: byte, data: Str, rest: Str)
    requires |data| <= 251
    ensures Entries([a, b, |data| + 4, version] + data + rest, 0) == [SuspEntry(a, b, version, data)] + Entries(rest, 0)
    ensures |rest| < 4 || rest[2] < 4 || rest[2] as int > |rest| ==> Entries(rest, 0) == []
  {
    var e := SuspEntry(a, b, version, data);
    var front := EncodeEntry(e);
    EntryInFront(e, rest);
    EntriesShift(front, rest, 0);
    EntriesStep(front + rest, 0, |front|);
  }

  /** CE, with the three numbers in both byte orders. */
  predicate IsPointer(e: SuspEntry) { e.sig0 == 0x43 && e.sig1 == 0x45 && |e.data| >= 24 }

  function Pointer(block: u32, offset: u32, length: u32, version: byte): SuspEntry {
    SuspEntry(0x43, 0x45, version,
              LE32(block) + BE32(block) + LE32(offset) + BE32(offset) + LE32(length) + BE32(length))
  }

  lemma PointerFields(block: u32, offset: u32, length: u32, version: byte)
    ensures var e := Pointer(block, offset, length, version);
            IsPointer(e) && Le32(e.data) == block && Le32(e.data[8..]) == offset && Le32(e.data[16..]) == length
  {
    var d := Pointer(block, offset, length, version).data;
    ByteOrders32(block, d[4..]);
    ByteOrders32(offset, d[12..]);
    ByteOrders32(length, d[20..]);
    assert d == LE32(block) + d[4..];
    assert d[8..] == LE32(offset) + d[12..];
    assert d[16..] == LE32(length) + d[20..];
  }

  /** The first CE entry is the one that counts. */
  lemma {:induction false} FirstCEMeans(es: seq<SuspEntry>, k: nat, block: u32, offset: u32, length: u32, version: byte)
    requires k < |es| && es[k] == Pointer(block, offset, length, version) && forall j | 0 <= j < k :: !IsPointer(es[j])
    ensures FirstCE(es) == Some(Continuation(block, offset, length))
  {
    if k > 0 {
      assert !es[0].IsCE() by { assert !IsPointer(es[0]); }
      FirstCEMeans(es[1..], k - 1, block, offset, length, version);
    } else {
      PointerFields(block, offset, length, version);
    }
  }

  lemma {:induction false} NoPointerNoCE(es: seq<SuspEntry>)
    requires forall e <- es :: !IsPointer(e)
    ensures FirstCE(es) == None
  {
    if es != [] {
      assert !IsPointer(es[0]);
      NoPointerNoCE(es[1..]);
    }
  }

  /** SP, with its check bytes. */
  predicate Announces(e: SuspEntry) {
    e.sig0 == 0x53 && e.sig1 == 0x50 && |e.data| >= 3 && e.data[0] == 0xBE && e.data[1] == 0xEF
  }

  /** The first SP entry with the right check bytes gives the number of bytes to skip. */
  lemma {:induction false} FirstSPMeans(es: seq<SuspEntry>, k: nat)
    requires k <= |es| && forall j | 0 <= j < k :: !Announces(es[j])
    requires k < |es| ==> Announces(es[k])
    ensures FirstSP(es) == if k < |es| then Some(es[k].data[2]) else None
    decreases k
  {
    if k > 0 {
      assert !Announces(es[0]);
      FirstSPMeans(es[1..], k - 1);
    }
  }
}
